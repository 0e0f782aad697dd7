/** Resolving debug-info types through cells that remember what was resolved before. */
module TypeResolution {
  import opened Outcomes
  import opened Bytes

  datatype Primitive = Void | I8 | U8 | I16 | U16 | I32 | U32 | I64 | U64

  datatype Type =
    | PrimitiveType(primitive: Primitive)
    | ArrayType(element: Type, dim: u32)
    | FunctionType
    | PointerType(target: Type)
    | StructType(name: string)
    | UnionType(name: string)
    | BitfieldType
    | UnknownType

  datatype BaseType = BaseType(len: u64, signed: bool)

  datatype FieldOffset = InBytes(bytes: u64) | InBits(bits: u64)

  datatype Member = Member(offset: FieldOffset, name: Option<string>, typ: nat)

  datatype DwarfStruct = DwarfStruct(size: u64, members: seq<Member>)

  /** A debugging entry that is a type; types refer to each other by offset. */
  datatype DwarfType =
    | Base(base: BaseType)
    | Struct(members: DwarfStruct)
    | StructDeclaration
    | Union(members: DwarfStruct)
    | Ptr(target: Option<nat>)
    | Typedef(aliased: nat)
    | Array(element: nat, dim: u32)
    | Function

  datatype EntryData = EntryData(offset: nat, name: Option<string>, dwarfType: DwarfType)

  function ToPrimitive(b: BaseType): Type {
    if b.len == 1 then PrimitiveType(if b.signed then I8 else U8)
    else if b.len == 2 then PrimitiveType(if b.signed then I16 else U16)
    else if b.len == 4 then PrimitiveType(if b.signed then I32 else U32)
    else if b.len == 8 then PrimitiveType(if b.signed then I64 else U64)
    else UnknownType
  }

  // ---- Plain resolution

  ghost predicate Sorted(g: seq<EntryData>) {
    forall i, j :: 0 <= i < j < |g| ==> g[i].offset < g[j].offset
  }

  /** The entry at an offset. */
  function Lookup(g: seq<EntryData>, offset: nat): (r: Option<EntryData>)
    ensures r.Some? ==> r.value in g && r.value.offset == offset
    ensures r.None? ==> forall e :: e in g ==> e.offset != offset
  {
    if g == [] then None else if g[0].offset == offset then Some(g[0]) else Lookup(g[1..], offset)
  }

  lemma {:induction false} LookupIs(g: seq<EntryData>, e: EntryData)
    requires Sorted(g) && e in g
    ensures Lookup(g, e.offset) == Some(e)
  {
    if g[0] != e {
      var i :| 0 < i < |g| && g[i] == e;
      assert g[0].offset < g[i].offset;
      assert e == g[1..][i-1];
      LookupIs(g[1..], e);
    }
  }

  /** The type an entry needs resolved to be resolved itself. */
  function Needs(t: DwarfType): Option<nat> {
    match t
    case Ptr(target) => target
    case Typedef(aliased) => Some(aliased)
    case Array(element, _) => Some(element)
    case _ => None
  }

  type Rank = nat -> nat

  /** No type needs itself: what an entry needs has a smaller rank. */
  ghost predicate Acyclic(g: seq<EntryData>, rank: Rank) {
    forall e :: e in g && Needs(e.dwarfType).Some? ==> rank(Needs(e.dwarfType).value) < rank(e.offset)
  }

  /** What an entry is, given what it needs. */
  function Classify(e: EntryData, needed: Option<Type>): Option<Type> {
    match e.dwarfType
    case Base(b) => Some(ToPrimitive(b))
    case Struct(_) => if e.name.Some? then Some(StructType(e.name.value)) else None
    case StructDeclaration => if e.name.Some? then Some(StructType(e.name.value)) else None
    case Union(_) => if e.name.Some? then Some(UnionType(e.name.value)) else None
    case Ptr(_) => Some(PointerType(if needed.Some? then needed.value else UnknownType))
    case Typedef(_) => needed
    case Array(_, dim) => if needed.Some? then Some(ArrayType(needed.value, dim)) else None
    case Function => Some(FunctionType)
  }

  ghost function Resolve(g: seq<EntryData>, rank: Rank, offset: nat): Option<Type>
    requires Acyclic(g, rank)
    decreases rank(offset)
  {
    match Lookup(g, offset)
    case None => None
    case Some(e) =>
      Classify(e, match Needs(e.dwarfType) case None => None case Some(o) => Resolve(g, rank, o))
  }

  /** The rank only shows that resolution ends. */
  lemma {:induction false} ResolveAnyRank(g: seq<EntryData>, rank: Rank, other: Rank, offset: nat)
    requires Acyclic(g, rank) && Acyclic(g, other)
    ensures Resolve(g, rank, offset) == Resolve(g, other, offset)
    decreases rank(offset)
  {
    var e := Lookup(g, offset);
    if e.Some? && Needs(e.value.dwarfType).Some? {
      ResolveAnyRank(g, rank, other, Needs(e.value.dwarfType).value);
    }
  }

  lemma Unknown(g: seq<EntryData>, rank: Rank, offset: nat)
    requires Acyclic(g, rank)
    ensures Lookup(g, offset).None? ==> Resolve(g, rank, offset) == None
  {
  }

  // ---- The list with its cells

  class TypeEntry {
    const data: EntryData
    var typ: Option<Type>

    constructor (data: EntryData)
      ensures this.data == data && typ == None
    {
      this.data, typ := data, None;
    }
  }

  class TypeList {
    var types: seq<TypeEntry>
    ghost const rank: Rank

    function Graph(): (g: seq<EntryData>)
      reads this
      ensures |g| == |types|
    {
      seq(|types|, i requires 0 <= i < |types| reads this => types[i].data)
    }

    /** Every filled cell holds what plain resolution gives. */
    ghost predicate Valid()
      reads this, types
    {
      && Sorted(Graph()) && Acyclic(Graph(), rank)
      && forall e :: e in types && e.typ.Some? ==> e.typ == Resolve(Graph(), rank, e.data.offset)
    }

    constructor (ghost rank: Rank)
      ensures Valid() && types == [] && this.rank == rank
    {
      types := [];
      this.rank := rank;
    }

    /** All types are pushed, in the order of their offsets, before any is resolved. */
    method Push(entry: TypeEntry)
      requires Valid() && entry.typ == None && forall e :: e in types ==> e.typ == None
      requires forall e :: e in types ==> e.data.offset < entry.data.offset
      requires Needs(entry.data.dwarfType).Some? ==> rank(Needs(entry.data.dwarfType).value) < rank(entry.data.offset)
      modifies this
      ensures Valid() && types == old(types) + [entry]
      ensures Graph() == old(Graph()) + [entry.data]
    {
      forall i | 0 <= i < |types| ensures Graph()[i].offset < entry.data.offset {
        assert types[i] in types;
      }
      types := types + [entry];
      assert Graph() == old(Graph()) + [entry.data];
    }

    /** `binary_search_by_key`; each probe is any index of the remaining range. */
    method FindByOffset(offset: nat) returns (r: Option<TypeEntry>)
      requires Sorted(Graph())
      ensures r.Some? ==> r.value in types && r.value.data.offset == offset && Lookup(Graph(), offset) == Some(r.value.data)
      ensures r.None? ==> Lookup(Graph(), offset) == None
    {
      var lo, hi := 0, |types|;
      ghost var g := Graph();
      while lo < hi
        invariant 0 <= lo <= hi <= |types|
        invariant forall i :: 0 <= i < lo ==> g[i].offset < offset
        invariant forall i :: hi <= i < |types| ==> offset < g[i].offset
      {
        var mid :| lo <= mid < hi;
        var key := types[mid].data.offset;
        assert g[mid].offset == key;
        if key < offset {
          lo := mid + 1;
        } else if offset < key {
          hi := mid;
        } else {
          assert types[mid].data == g[mid] && g[mid] in g;
          LookupIs(g, g[mid]);
          return Some(types[mid]);
        }
      }
      assert forall e :: e in g ==> e.offset != offset;
      r := None;
    }

    method ClassifyType(entry: TypeEntry) returns (r: Option<Type>)
      requires Valid() && entry in types
      modifies types
      ensures Valid()
      ensures r == Resolve(Graph(), rank, entry.data.offset)
      ensures forall e :: e in types && old(e.typ).Some? ==> e.typ == old(e.typ)
      decreases rank(entry.data.offset), 0
    {
      InGraph(entry);
      LookupIs(Graph(), entry.data);
      var needed := None;
      var needs := Needs(entry.data.dwarfType);
      if needs.Some? {
        needed := GetType(needs.value);
      }
      r := Classify(entry.data, needed);
    }

    lemma InGraph(entry: TypeEntry)
      requires entry in types
      ensures entry.data in Graph()
    {
      var i :| 0 <= i < |types| && types[i] == entry;
      assert Graph()[i] == entry.data;
    }

    /** In any state of the cells, the answer is that of plain resolution; cells stay correct and
        full cells stay full. */
    method GetType(offset: nat) returns (r: Option<Type>)
      requires Valid()
      modifies types
      ensures Valid()
      ensures r == Resolve(Graph(), rank, offset)
      ensures forall e :: e in types && old(e.typ).Some? ==> e.typ == old(e.typ)
      decreases rank(offset), 1
    {
      hide Lookup, Acyclic, Sorted, Resolve;
      var found := FindByOffset(offset);
      Unknown(Graph(), rank, offset);
      if found.None? {
        return None;
      }
      var entry := found.value;
      var typ := entry.typ;
      entry.typ := None;
      if typ.None? {
        typ := ClassifyType(entry);
      }
      if typ.None? {
        return None;
      }
      entry.typ := typ;
      r := typ;
    }
  }
}
