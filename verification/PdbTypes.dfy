/** The same memo over the types of a PDB, which refer to each other by index. */
module PdbTypes {
  import opened Outcomes
  import opened Arithmetic
  import opened Bytes
  import opened TypeResolution
  import opened TypeLayouts

  /** A type record. A name that is not UTF-8 is `None`. */
  datatype TypeData =
    | ArrayData(element: u32, dimensions: seq<u32>)
    | BitfieldData
    | ClassData(name: Option<string>)
    | EnumerationData(underlying: u32)
    | ModifierData(underlying: u32)
    | ProcedureData
    | PointerData(underlying: u32)
    | UnionData(name: Option<string>)
    | OtherData

  /** Indices below this one are built-in types. */
  const FIRST_RECORD := 0x1000

  function ClassifyPrimitive(ty: u32): Option<Type>
    requires ty < FIRST_RECORD
  {
    match ty
    case 0x03 => Some(PrimitiveType(Void))
    case 0x603 => Some(PointerType(PrimitiveType(Void)))
    case 0x10 | 0x68 => Some(PrimitiveType(I8))
    case 0x610 | 0x668 => Some(PointerType(PrimitiveType(I8)))
    case 0x20 | 0x69 => Some(PrimitiveType(U8))
    case 0x620 | 0x669 => Some(PointerType(PrimitiveType(U8)))
    case 0x11 | 0x72 => Some(PrimitiveType(I16))
    case 0x611 | 0x672 => Some(PointerType(PrimitiveType(I16)))
    case 0x21 | 0x73 => Some(PrimitiveType(U16))
    case 0x621 | 0x673 => Some(PointerType(PrimitiveType(U16)))
    case 0x12 | 0x74 => Some(PrimitiveType(I32))
    case 0x612 | 0x674 => Some(PointerType(PrimitiveType(I32)))
    case 0x22 | 0x75 => Some(PrimitiveType(U32))
    case 0x622 | 0x675 => Some(PointerType(PrimitiveType(U32)))
    case 0x13 | 0x76 => Some(PrimitiveType(I64))
    case 0x613 | 0x676 => Some(PointerType(PrimitiveType(I64)))
    case 0x23 | 0x77 => Some(PrimitiveType(U64))
    case 0x623 | 0x677 => Some(PointerType(PrimitiveType(U64)))
    case _ => None
  }

  /** Bits 8 to 10 are the pointer mode: a 64-bit pointer to a built-in type is known exactly if
      the type is, and nothing else above is. */
  lemma PointerModes(ty: u32)
    requires ty < FIRST_RECORD
    ensures ty >= 0x100 ==>
              ClassifyPrimitive(ty) ==
                if ty / 0x100 == 6 && ClassifyPrimitive(ty % 0x100).Some?
                then Some(PointerType(ClassifyPrimitive(ty % 0x100).value)) else None
    ensures ClassifyPrimitive(ty).Some? && ty < 0x100 ==> ClassifyPrimitive(ty).value.PrimitiveType?
  {
    if ty >= 0x100 {
      assert ty / 0x100 == 6 ==> ty == 0x600 + ty % 0x100;
    }
  }

  /** The integer a built-in type stands for, by its size in bytes and signedness: four sizes of
      each sign in a row, and the types named by their width from 0x68 and from 0x72 on. */
  function IntegerOf(code: nat): Option<(nat, bool)> {
    if 0x10 <= code < 0x14 then Some((PowerOf2(code - 0x10), true))
    else if 0x20 <= code < 0x24 then Some((PowerOf2(code - 0x20), false))
    else if 0x68 <= code < 0x6a then Some((1, code % 2 == 0))
    else if 0x72 <= code < 0x78 then Some((PowerOf2((code - 0x70) / 2), code % 2 == 0))
    else None
  }

  function PowerOf2(n: nat): nat { if n == 0 then 1 else 2 * PowerOf2(n - 1) }

  /** The type a code below 0x100 stands for. */
  predicate IsScalar(code: nat, t: Type) {
    if code == 3 then t == PrimitiveType(Void)
    else IntegerOf(code).Some? && IntegerOf(code).value.0 in {1, 2, 4, 8}
         && IsBase(IntegerOf(code).value.0, IntegerOf(code).value.1, t)
  }

  /** Built-in types are exactly the scalars, and the 64-bit pointers to them. */
  lemma BuiltinsExactly(ty: u32, t: Type)
    requires ty < FIRST_RECORD
    ensures ClassifyPrimitive(ty) == Some(t) <==>
            (ty < 0x100 && IsScalar(ty, t)) || (ty / 0x100 == 6 && t.PointerType? && IsScalar(ty % 0x100, t.target))
  {
    assert PowerOf2(0) == 1 && PowerOf2(1) == 2 && PowerOf2(2) == 4 && PowerOf2(3) == 8;
    PointerModes(ty);
    if ty < 0x100 {
      ScalarsExactly(ty, t);
    } else if ty / 0x100 == 6 && t.PointerType? {
      ScalarsExactly(ty % 0x100, t.target);
    }
  }

  lemma ScalarsExactly(ty: u32, t: Type)
    requires ty < 0x100
    ensures ClassifyPrimitive(ty) == Some(t) <==> IsScalar(ty, t)
  {
    assert PowerOf2(0) == 1 && PowerOf2(1) == 2 && PowerOf2(2) == 4 && PowerOf2(3) == 8;
  }

  function Product(dims: seq<u32>): u32 {
    if dims == [] then 1 else Product(dims[..|dims| - 1]) * dims[|dims| - 1] % 0x1_0000_0000
  }

  /** The product as a number, from the first dimension on. */
  function Elements(dims: seq<u32>): nat {
    if dims == [] then 1 else dims[0] * Elements(dims[1..])
  }

  /** The dimension of an array is the number of its elements, as far as 32 bits hold it. */
  lemma {:induction false} ProductIsElements(dims: seq<u32>)
    ensures Product(dims) == Elements(dims) % 0x1_0000_0000
  {
    if dims != [] {
      var n := |dims| - 1;
      ProductIsElements(dims[..n]);
      ElementsSplit(dims);
      ModTimes(Elements(dims[..n]), dims[n]);
    }
  }

  lemma {:induction false} ElementsSplit(dims: seq<u32>)
    requires dims != []
    ensures Elements(dims) == Elements(dims[..|dims| - 1]) * dims[|dims| - 1]
  {
    var n := |dims| - 1;
    if n == 0 {
      assert dims[..n] == [] && dims[1..] == [];
    } else {
      ElementsSplit(dims[1..]);
      var middle := Elements(dims[1..][..n - 1]);
      assert dims[1..][..n - 1] == dims[..n][1..] && dims[1..][n - 1] == dims[n];
      assert dims[0] * (middle * dims[n]) == (dims[0] * middle) * dims[n];
    }
  }

  lemma ModTimes(a: nat, b: nat)
    ensures (a % 0x1_0000_0000) * b % 0x1_0000_0000 == a * b % 0x1_0000_0000
  {
    var q, r := a / 0x1_0000_0000, a % 0x1_0000_0000;
    assert a * b == r * b + (q * b) * 0x1_0000_0000;
    DivModUnique(a * b, 0x1_0000_0000, q * b + r * b / 0x1_0000_0000, r * b % 0x1_0000_0000);
  }

  // ---- Plain resolution

  function Refers(t: TypeData): Option<u32> {
    match t
    case ArrayData(element, _) => Some(element)
    case EnumerationData(underlying) => Some(underlying)
    case ModifierData(underlying) => Some(underlying)
    case PointerData(underlying) => Some(underlying)
    case _ => None
  }

  /** The record at an index; `first` is the index of the first record. */
  function RecordAt(g: seq<TypeData>, first: u32, index: u32): Option<TypeData> {
    if first <= index < first + |g| then Some(g[index - first]) else None
  }

  ghost predicate AcyclicRecords(g: seq<TypeData>, first: u32, rank: Rank) {
    forall i: u32 :: i >= FIRST_RECORD && RecordAt(g, first, i).Some? && Refers(RecordAt(g, first, i).value).Some? ==>
      rank(Refers(RecordAt(g, first, i).value).value) < rank(i)
  }

  /** Unlike in DWARF, a pointer to a type that cannot be resolved cannot be resolved. */
  function ClassifyRecord(t: TypeData, needed: Option<Type>): Option<Type> {
    match t
    case ArrayData(_, dims) => if needed.Some? then Some(ArrayType(needed.value, Product(dims))) else None
    case BitfieldData => Some(BitfieldType)
    case ClassData(name) => if name.Some? then Some(StructType(name.value)) else None
    case EnumerationData(_) => needed
    case ModifierData(_) => needed
    case ProcedureData => Some(FunctionType)
    case PointerData(_) => if needed.Some? then Some(PointerType(needed.value)) else None
    case UnionData(name) => if name.Some? then Some(UnionType(name.value)) else None
    case OtherData => None
  }

  ghost function ResolveIndex(g: seq<TypeData>, first: u32, rank: Rank, index: u32): Option<Type>
    requires AcyclicRecords(g, first, rank)
    decreases rank(index)
  {
    if index < FIRST_RECORD then ClassifyPrimitive(index) else
    match RecordAt(g, first, index)
    case None => None
    case Some(t) =>
      ClassifyRecord(t, match Refers(t) case None => None case Some(i) => ResolveIndex(g, first, rank, i))
  }

  // ---- What records declare

  /** The record, or built-in type, at an index declares `t`. */
  ghost predicate DeclaresIndex(g: seq<TypeData>, first: u32, rank: Rank, index: u32, t: Type)
    requires AcyclicRecords(g, first, rank)
    decreases rank(index)
  {
    if index < 0x1000 then
      (index < 0x100 && IsScalar(index, t)) || (index / 0x100 == 6 && t.PointerType? && IsScalar(index % 0x100, t.target))
    else
      && first <= index < first + |g|
      && assert RecordAt(g, first, index) == Some(g[index - first]);
         match g[index - first]
         case ArrayData(element, dims) =>
           t.ArrayType? && t.dim == Elements(dims) % 0x1_0000_0000 && DeclaresIndex(g, first, rank, element, t.element)
         case BitfieldData => t == BitfieldType
         case ClassData(name) => name.Some? && t == StructType(name.value)
         case EnumerationData(underlying) => DeclaresIndex(g, first, rank, underlying, t)
         case ModifierData(underlying) => DeclaresIndex(g, first, rank, underlying, t)
         case ProcedureData => t == FunctionType
         case PointerData(underlying) => t.PointerType? && DeclaresIndex(g, first, rank, underlying, t.target)
         case UnionData(name) => name.Some? && t == UnionType(name.value)
         case OtherData => false
  }

  /** Resolution gives exactly the type declared. */
  lemma {:induction false} ResolvesIndexExactly(g: seq<TypeData>, first: u32, rank: Rank, index: u32, t: Type)
    requires AcyclicRecords(g, first, rank)
    ensures ResolveIndex(g, first, rank, index) == Some(t) <==> DeclaresIndex(g, first, rank, index, t)
    decreases rank(index)
  {
    hide ClassifyPrimitive, IsScalar, Product, Elements;
    if index < FIRST_RECORD {
      BuiltinsExactly(index, t);
    } else if first <= index < first + |g| {
      var record := g[index - first];
      assert RecordAt(g, first, index) == Some(record);
      match record {
        case ArrayData(element, dims) =>
          ProductIsElements(dims);
          if t.ArrayType? { ResolvesIndexExactly(g, first, rank, element, t.element); }
        case EnumerationData(underlying) => ResolvesIndexExactly(g, first, rank, underlying, t);
        case ModifierData(underlying) => ResolvesIndexExactly(g, first, rank, underlying, t);
        case PointerData(underlying) =>
          if t.PointerType? { ResolvesIndexExactly(g, first, rank, underlying, t.target); }
        case _ =>
      }
    }
  }

  // ---- The list with its cells

  class TypeCell {
    const data: TypeData
    var typ: Option<Type>

    constructor (data: TypeData)
      ensures this.data == data && typ == None
    {
      this.data, typ := data, None;
    }
  }

  class PdbTypeList {
    const offset: u32
    const types: seq<TypeCell>
    ghost const rank: Rank

    ghost function Records(): (g: seq<TypeData>)
      ensures |g| == |types| && forall i :: 0 <= i < |g| ==> g[i] == types[i].data
    {
      seq(|types|, i requires 0 <= i < |types| => types[i].data)
    }

    /** The cells are distinct, and a full one holds what plain resolution gives its index. */
    ghost predicate Valid()
      reads types
    {
      && offset >= FIRST_RECORD && offset + |types| <= 0x1_0000_0000
      && AcyclicRecords(Records(), offset, rank)
      && (forall i, j :: 0 <= i < j < |types| ==> types[i] != types[j])
      && forall i :: 0 <= i < |types| && types[i].typ.Some? ==>
           types[i].typ == ResolveIndex(Records(), offset, rank, offset + i)
    }

    constructor (offset: u32, types: seq<TypeCell>, ghost rank: Rank)
      requires offset >= FIRST_RECORD && offset + |types| <= 0x1_0000_0000
      requires forall i, j :: 0 <= i < j < |types| ==> types[i] != types[j]
      requires forall c :: c in types ==> c.typ == None
      requires AcyclicRecords(seq(|types|, i requires 0 <= i < |types| => types[i].data), offset, rank)
      ensures Valid() && this.offset == offset && this.types == types && this.rank == rank
    {
      this.offset, this.types, this.rank := offset, types, rank;
      new;
      assert Records() == seq(|types|, i requires 0 <= i < |types| => types[i].data);
    }

    method ClassifyType(typ: TypeData, ghost index: u32) returns (r: Option<Type>)
      requires Valid() && index >= FIRST_RECORD && RecordAt(Records(), offset, index) == Some(typ)
      modifies types
      ensures Valid()
      ensures r == ResolveIndex(Records(), offset, rank, index)
      ensures forall c :: c in types && old(c.typ).Some? ==> c.typ == old(c.typ)
      decreases rank(index), 0
    {
      var needed := None;
      var needs := Refers(typ);
      if needs.Some? {
        needed := GetType(needs.value);
      }
      r := ClassifyRecord(typ, needed);
    }

    /** In any state of the cells, the answer is that of plain resolution; cells stay correct and
        full cells stay full. */
    method GetType(index: u32) returns (r: Option<Type>)
      requires Valid()
      modifies types
      ensures Valid()
      ensures r == ResolveIndex(Records(), offset, rank, index)
      ensures forall c :: c in types && old(c.typ).Some? ==> c.typ == old(c.typ)
      decreases rank(index), 1
    {
      if index < FIRST_RECORD {
        return ClassifyPrimitive(index);
      }
      if index < offset || index - offset >= |types| {
        return None;
      }
      var cell := types[index - offset];
      var typ := cell.typ;
      cell.typ := None;
      if typ.Some? {
        cell.typ := typ;
        return typ;
      }
      typ := ClassifyType(cell.data, index);
      cell.typ := typ;
      r := typ;
    }
  }
}
