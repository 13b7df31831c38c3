/** Run-time descriptions of record types: the register, the registration of a struct, and finding a member from a
    pointer to member. */
module Reflection {
  import opened Machine
  import opened WideInput

  datatype StorageClass = KInt | KReal | KText | KDateTime | KBool

  /** `ToSqliteColumnName` */
  function ColumnType(c: StorageClass): string {
    match c
    case KInt => "INTEGER"
    case KBool => "INTEGER"
    case KReal => "REAL"
    case KText => "TEXT"
    case KDateTime => "DATETIME"
  }

  /** `MemberMetadata`; its column type follows from the storage class. */
  datatype Member = Member(name: string, class_: StorageClass, offset: nat) {
    function ColumnTypeName(): string { ColumnType(class_) }
  }

  datatype Reflected = Reflected(name: string, members: seq<Member>)

  const ID := "id"

  // ----- Registration -----

  /** A struct as its header declares it: the fields in order, and the offset of the `id` that follows them. */
  datatype Struct = Struct(typeId: string, name: string, fields: seq<Member>, idOffset: nat)

  /** The metadata registration builds: `id` first, then the fields in their declared order. */
  function Describe(s: Struct): Reflected {
    Reflected(s.name, [Member(ID, KInt, s.idOffset)] + s.fields)
  }

  class ReflectionRegister {
    var records: map<string, Reflected>

    constructor ()
      ensures records == map[]
    {
      records := map[];
    }

    /** `GetRecordFromTypeId`: looking up a type that is not there inserts an empty description. */
    method GetRecordFromTypeId(typeId: string) returns (r: Reflected)
      modifies this
      ensures r == if typeId in old(records) then old(records)[typeId] else Reflected("", [])
      ensures records == old(records)[typeId := r]
    {
      if typeId !in records {
        records := records[typeId := Reflected("", [])];
      }
      r := records[typeId];
    }

    /** The generated registration function: it does nothing when the type is already there. */
    method Register(s: Struct) returns (name: string)
      modifies this
      ensures name == s.name
      ensures records == AfterRegister(old(records), s)
    {
      name := s.name;
      if s.typeId !in records {
        var reflectable := GetRecordFromTypeId(s.typeId);
        reflectable := Reflected(name, [Member(ID, KInt, s.idOffset)]);
        var k := 0;
        while k < |s.fields|
          invariant 0 <= k <= |s.fields|
          invariant reflectable == Reflected(name, [Member(ID, KInt, s.idOffset)] + s.fields[..k])
        {
          reflectable := Reflected(name, reflectable.members + [s.fields[k]]);
          k := k + 1;
        }
        assert s.fields[..k] == s.fields;
        records := records[s.typeId := reflectable];
        assert records == old(records)[s.typeId := reflectable];
      }
    }

    /** Static initialisation registers every header that includes a struct, in some order, possibly many times. */
    method RegisterAll(structs: seq<Struct>)
      modifies this
      ensures records == AfterAll(old(records), structs)
    {
      var n := 0;
      while n < |structs|
        invariant 0 <= n <= |structs|
        invariant records == AfterAll(old(records), structs[..n])
      {
        var name := Register(structs[n]);
        assert structs[..n + 1][..n] == structs[..n];
        n := n + 1;
      }
      assert structs[..n] == structs;
    }
  }

  function AfterRegister(records: map<string, Reflected>, s: Struct): map<string, Reflected> {
    if s.typeId in records then records else records[s.typeId := Describe(s)]
  }

  function AfterAll(records: map<string, Reflected>, structs: seq<Struct>): map<string, Reflected> {
    if structs == [] then records
    else AfterRegister(AfterAll(records, structs[..|structs| - 1]), structs[|structs| - 1])
  }

  lemma {:induction false} FirstDescriptionStays(records: map<string, Reflected>, structs: seq<Struct>, k: nat)
    requires k < |structs| && structs[k].typeId !in records
    requires forall j :: 0 <= j < k ==> structs[j].typeId != structs[k].typeId
    ensures var r := AfterAll(records, structs);
            structs[k].typeId in r && r[structs[k].typeId] == Describe(structs[k])
    ensures forall id :: id in records ==> id in AfterAll(records, structs) && AfterAll(records, structs)[id] == records[id]
  {
    hide Describe;
    var earlier := structs[..|structs| - 1];
    if k < |structs| - 1 {
      FirstDescriptionStays(records, earlier, k);
    } else {
      OnlyListedTypes(records, earlier);
    }
  }

  /** Whatever the order and however often, each type ends up described by the first registration of it: `id` and its
      fields once each. Types already in the register keep their description. */
  lemma FirstRegistrationWins(records: map<string, Reflected>, structs: seq<Struct>, k: nat)
    requires k < |structs| && structs[k].typeId !in records
    requires forall j :: 0 <= j < k ==> structs[j].typeId != structs[k].typeId
    ensures structs[k].typeId in AfterAll(records, structs)
    ensures var (s, r) := (structs[k], AfterAll(records, structs)[structs[k].typeId]);
            && r.name == s.name && |r.members| == |s.fields| + 1 && r.members[0] == Member(ID, KInt, s.idOffset)
            && forall i :: 0 <= i < |s.fields| ==> r.members[i + 1] == s.fields[i]
    ensures forall id :: id in records ==> id in AfterAll(records, structs) && AfterAll(records, structs)[id] == records[id]
  {
    hide AfterAll;
    FirstDescriptionStays(records, structs, k);
  }

  lemma {:induction false} OnlyListedTypes(records: map<string, Reflected>, structs: seq<Struct>)
    ensures forall id :: id in AfterAll(records, structs) ==>
              id in records || exists j :: 0 <= j < |structs| && structs[j].typeId == id
    ensures forall id :: id in records ==> id in AfterAll(records, structs) && AfterAll(records, structs)[id] == records[id]
  {
    if structs != [] {
      var earlier := structs[..|structs| - 1];
      OnlyListedTypes(records, earlier);
      forall id | id in AfterAll(records, structs) && id !in records
        ensures exists j :: 0 <= j < |structs| && structs[j].typeId == id
      {
        if id in AfterAll(records, earlier) {
          var j :| 0 <= j < |earlier| && earlier[j].typeId == id;
          assert structs[j].typeId == id;
        } else {
          assert structs[|structs| - 1].typeId == id;
        }
      }
    }
  }

  /** Looking a type up before it is registered leaves an empty description that registration then keeps. */
  lemma LookupBlocksRegistration(records: map<string, Reflected>, s: Struct)
    requires s.typeId !in records
    ensures AfterRegister(records[s.typeId := Reflected("", [])], s)[s.typeId] == Reflected("", []) != Describe(s)
  {
    assert |Describe(s).members| >= 1;
  }

  // ----- From a pointer to member to a member -----

  /** The number that bytes hold in little-endian order. */
  function LittleEndian(bytes: seq<uint8>): (n: nat) {
    if bytes == [] then 0 else bytes[0] as nat + 0x100 * LittleEndian(bytes[1..])
  }

  /** The bytes before the first zero, what `strlen` counts. */
  function CString(bytes: seq<uint8>): seq<uint8> {
    if bytes == [] || bytes[0] == 0 then [] else [bytes[0]] + CString(bytes[1..])
  }

  /** `OffsetFromStart`: the pointer's bytes are copied as a C string, so the copy stops at the first zero byte. */
  method OffsetFromStart(bytes: seq<uint8>) returns (offset: nat)
    requires bytes != [] && bytes[|bytes| - 1] == 0
    ensures offset == LittleEndian(CString(bytes))
  {
    var len := 0;
    while bytes[len] != 0
      invariant 0 <= len < |bytes|
      invariant CString(bytes) == bytes[..len] + CString(bytes[len..])
      decreases |bytes| - len
    {
      assert bytes[len..][1..] == bytes[len + 1..];
      len := len + 1;
    }
    assert CString(bytes) == bytes[..len];
    offset := LittleEndian(bytes[..len]);
  }

  /** The size of a pointer to member, 8 bytes on 64-bit platforms. */
  const POINTER_SIZE := 8

  /** The lowest bytes of a number in little-endian order. */
  function Bytes(n: nat, size: nat): (bytes: seq<uint8>)
    ensures |bytes| == size
  {
    if size == 0 then [] else [(n % 0x100) as uint8] + Bytes(n / 0x100, size - 1)
  }

  /** The bytes of a pointer to a member: its offset. */
  function PointerTo(m: Member): (bytes: seq<uint8>)
    ensures |bytes| == POINTER_SIZE
  {
    Bytes(m.offset, POINTER_SIZE)
  }

  function Pow256(n: nat): (p: nat)
    ensures 0 < p
  {
    if n == 0 then 1 else 0x100 * Pow256(n - 1)
  }

  /** A number that fits below the last of its bytes is what they hold, and the last one is zero. */
  lemma {:induction false} BytesHold(n: nat, size: nat)
    requires 0 < size && n < Pow256(size - 1)
    ensures LittleEndian(Bytes(n, size)) == n && Bytes(n, size)[size - 1] == 0
  {
    var rest := Bytes(n / 0x100, size - 1);
    assert Bytes(n, size)[1..] == rest;
    if size == 1 {
      assert Bytes(n, size) == [0] && LittleEndian([]) == 0;
    } else {
      BytesHold(n / 0x100, size - 1);
    }
  }

  /** Offsets that leave the last byte of a pointer zero, as those of all real members do. */
  predicate ValidOffset(m: Member) { m.offset < 0x100_0000_0000_0000 }

  lemma PointerHolds(m: Member)
    requires ValidOffset(m)
    ensures LittleEndian(PointerTo(m)) == m.offset && PointerTo(m)[POINTER_SIZE - 1] == 0
  {
    assert Pow256(1) == 0x100 && Pow256(2) == 0x1_0000 && Pow256(3) == 0x100_0000 && Pow256(4) == 0x1_0000_0000;
    assert Pow256(5) == 0x100_0000_0000 && Pow256(6) == 0x1_0000_0000_0000;
    BytesHold(m.offset, POINTER_SIZE);
  }

  /** No zero byte lies below a non-zero byte. */
  predicate NoGap(bytes: seq<uint8>) {
    forall i, j :: 0 <= i < j < |bytes| && bytes[j] != 0 ==> bytes[i] != 0
  }

  lemma {:induction false} AllZero(bytes: seq<uint8>)
    ensures LittleEndian(bytes) == 0 <==> forall k :: 0 <= k < |bytes| ==> bytes[k] == 0
  {
    if bytes != [] {
      AllZero(bytes[1..]);
      assert forall k :: 1 <= k < |bytes| ==> bytes[k] == bytes[1..][k - 1];
      if forall k :: 0 <= k < |bytes| ==> bytes[k] == 0 {
        assert forall k :: 0 <= k < |bytes[1..]| ==> bytes[1..][k] == bytes[k + 1];
      }
    }
  }

  /** The offset survives the copy if and only if no zero byte lies below a non-zero byte of it. */
  lemma {:induction false} OffsetSurvivesIff(bytes: seq<uint8>)
    ensures LittleEndian(CString(bytes)) == LittleEndian(bytes) <==> NoGap(bytes)
  {
    if bytes != [] {
      assert forall k :: 1 <= k < |bytes| ==> bytes[k] == bytes[1..][k - 1];
      if bytes[0] == 0 {
        AllZero(bytes);
        if NoGap(bytes) {
          forall k | 0 <= k < |bytes| ensures bytes[k] == 0 { }
        }
      } else {
        OffsetSurvivesIff(bytes[1..]);
        var c := CString(bytes[1..]);
        assert ([bytes[0]] + c)[1..] == c;
        if NoGap(bytes[1..]) {
          forall i, j | 0 <= i < j < |bytes| && bytes[j] != 0 ensures bytes[i] != 0 {
            if 0 < i { assert bytes[1..][j - 1] != 0 ==> bytes[1..][i - 1] != 0; }
          }
        }
        if NoGap(bytes) {
          forall i, j | 0 <= i < j < |bytes[1..]| && bytes[1..][j] != 0 ensures bytes[1..][i] != 0 {
            assert bytes[j + 1] != 0 ==> bytes[i + 1] != 0;
          }
        }
      }
    }
  }

  /** The first member with an offset, as the constructor of `QueryPredicate` looks for it. */
  method MemberAt(record: Reflected, offset: nat) returns (i: Option<nat>)
    ensures i == IndexOfOffset(record.members, offset, 0)
    ensures i.None? ==> forall j :: 0 <= j < |record.members| ==> record.members[j].offset != offset
    ensures i.Some? ==> i.value < |record.members| && record.members[i.value].offset == offset
                        && forall j :: 0 <= j < i.value ==> record.members[j].offset != offset
  {
    var k := 0;
    while k < |record.members|
      invariant 0 <= k <= |record.members| && forall j :: 0 <= j < k ==> record.members[j].offset != offset
      invariant IndexOfOffset(record.members, offset, k) == IndexOfOffset(record.members, offset, 0)
    {
      if record.members[k].offset == offset { return Some(k); }
      k := k + 1;
    }
    return None;
  }

  function IndexOfOffset(members: seq<Member>, offset: nat, from: nat): (i: Option<nat>)
    requires from <= |members|
    ensures i.Some? ==> from <= i.value < |members| && members[i.value].offset == offset
    decreases |members| - from
  {
    if from == |members| then None
    else if members[from].offset == offset then Some(from)
    else IndexOfOffset(members, offset, from + 1)
  }

  predicate DistinctOffsets(members: seq<Member>) {
    forall i, j :: 0 <= i < j < |members| ==> members[i].offset != members[j].offset
  }

  lemma {:induction false} IndexOfOwnOffset(members: seq<Member>, i: nat, from: nat)
    requires DistinctOffsets(members) && from <= i < |members|
    ensures IndexOfOffset(members, members[i].offset, from) == Some(i)
    decreases |members| - from
  {
    if from < i { IndexOfOwnOffset(members, i, from + 1); }
  }

  /** A predicate built from a pointer to member names that member if and only if the member's offset survives. */
  lemma PointerNamesMemberIff(members: seq<Member>, i: nat, bytes: seq<uint8>)
    requires DistinctOffsets(members) && i < |members|
    requires LittleEndian(bytes) == members[i].offset
    ensures IndexOfOffset(members, LittleEndian(CString(bytes)), 0) == Some(i) <==> NoGap(bytes)
  {
    OffsetSurvivesIff(bytes);
    IndexOfOwnOffset(members, i, 0);
  }

  lemma {:induction false} BytesOfZero(size: nat)
    ensures forall k :: 0 <= k < size ==> Bytes(0, size)[k] == 0
  {
    if size > 0 { BytesOfZero(size - 1); }
  }

  /** In structs of less than 64 KiB the offsets with a gap are the multiples of 256 other than 0. */
  lemma GapIffMultiple(m: Member)
    requires m.offset < 0x1_0000
    ensures NoGap(PointerTo(m)) <==> m.offset < 0x100 || m.offset % 0x100 != 0
  {
    var b := PointerTo(m);
    BytesOfZero(POINTER_SIZE - 2);
    assert b == [(m.offset % 0x100) as uint8, (m.offset / 0x100) as uint8] + Bytes(0, POINTER_SIZE - 2) by {
      assert m.offset / 0x100 / 0x100 == 0 && m.offset / 0x100 % 0x100 == m.offset / 0x100;
      assert Bytes(m.offset, 8) == [(m.offset % 0x100) as uint8] + Bytes(m.offset / 0x100, 7);
      assert Bytes(m.offset / 0x100, 7) == [(m.offset / 0x100) as uint8] + Bytes(0, 6);
    }
    assert b[0] as nat == m.offset % 0x100 && b[1] as nat == m.offset / 0x100;
    assert forall k :: 2 <= k < POINTER_SIZE ==> b[k] == 0;
  }

  /** The shortest gap: a member 256 bytes into its struct is taken for the one at its start. */
  lemma OffsetOf256IsTakenForStart()
    ensures LittleEndian([0, 1, 0]) == 0x100 && LittleEndian(CString([0, 1, 0])) == 0 && !NoGap([0, 1, 0])
  {
    var b: seq<uint8> := [0, 1, 0];
    assert b[1..] == [1, 0] && b[1..][1..] == [0] && b[1..][1..][1..] == [];
    assert LittleEndian(b[1..][1..]) == 0 && LittleEndian(b[1..]) == 1;
    assert b[0] == 0 && b[1] != 0;
  }
}
