/** What debugging entries declare, by definition, and entries that declare any given type. */
module TypeLayouts {
  import opened Outcomes
  import opened Bytes
  import opened TypeResolution

  // ---- What entries declare

  /** A base type of 1, 2, 4 or 8 bytes is an integer of that many bits; no other is known. */
  predicate IsBase(len: u64, signed: bool, t: Type) {
    if len == 1 then t == PrimitiveType(if signed then I8 else U8)
    else if len == 2 then t == PrimitiveType(if signed then I16 else U16)
    else if len == 4 then t == PrimitiveType(if signed then I32 else U32)
    else if len == 8 then t == PrimitiveType(if signed then I64 else U64)
    else t == UnknownType
  }

  /** The entry at an offset declares `t`. */
  ghost predicate Declares(g: seq<EntryData>, rank: Rank, offset: nat, t: Type)
    requires Acyclic(g, rank)
    decreases rank(offset)
  {
    exists e :: e in g && e.offset == offset &&
      match e.dwarfType
      case Base(b) => IsBase(b.len, b.signed, t)
      case Struct(_) => e.name.Some? && t == StructType(e.name.value)
      case StructDeclaration => e.name.Some? && t == StructType(e.name.value)
      case Union(_) => e.name.Some? && t == UnionType(e.name.value)
      case Ptr(None) => t == PointerType(UnknownType)
      case Ptr(Some(o)) =>
        t.PointerType? && (Declares(g, rank, o, t.target) || (t.target == UnknownType && Undeclared(g, rank, o)))
      case Typedef(o) => Declares(g, rank, o, t)
      case Array(o, dim) => t.ArrayType? && t.dim == dim && Declares(g, rank, o, t.element)
      case Function => t == FunctionType
  }

  /** No type is declared there: there is no entry, or a structure or union without a name, or an
      alias or array of such. */
  ghost predicate Undeclared(g: seq<EntryData>, rank: Rank, offset: nat)
    requires Acyclic(g, rank)
    decreases rank(offset)
  {
    forall e :: e in g && e.offset == offset ==>
      match e.dwarfType
      case Struct(_) => e.name.None?
      case StructDeclaration => e.name.None?
      case Union(_) => e.name.None?
      case Typedef(o) => Undeclared(g, rank, o)
      case Array(o, _) => Undeclared(g, rank, o)
      case _ => false
  }

  /** Resolution gives exactly the type declared, and none exactly where none is. */
  lemma {:induction false} ResolvesExactly(g: seq<EntryData>, rank: Rank, offset: nat)
    requires Sorted(g) && Acyclic(g, rank)
    ensures forall t :: Declares(g, rank, offset, t) <==> Resolve(g, rank, offset) == Some(t)
    ensures Undeclared(g, rank, offset) <==> Resolve(g, rank, offset) == None
    decreases rank(offset)
  {
    hide Sorted;
    var found := Lookup(g, offset);
    if found.Some? {
      var e := found.value;
      forall other | other in g && other.offset == offset ensures other == e {
        LookupIs(g, other);
      }
      if Needs(e.dwarfType).Some? {
        ResolvesExactly(g, rank, Needs(e.dwarfType).value);
      }
    }
  }

  // ---- Entries for a type

  /** The types entries can declare. */
  predicate Expressible(t: Type) {
    match t
    case PrimitiveType(p) => !p.Void?
    case ArrayType(element, _) => Expressible(element)
    case PointerType(target) => Expressible(target)
    case BitfieldType => false
    case _ => true
  }

  function BaseOf(p: Primitive): BaseType
    requires !p.Void?
  {
    match p
    case I8 => BaseType(1, true) case U8 => BaseType(1, false)
    case I16 => BaseType(2, true) case U16 => BaseType(2, false)
    case I32 => BaseType(4, true) case U32 => BaseType(4, false)
    case I64 => BaseType(8, true) case U64 => BaseType(8, false)
  }

  /** `n` aliases, each of the entry before it. */
  function Aliases(at: nat, n: nat): (s: seq<EntryData>)
    requires at > 0
    ensures |s| == n && forall k :: 0 <= k < n ==> s[k] == EntryData(at + k, None, Typedef(at + k - 1))
  {
    seq(n, k requires 0 <= k < n => EntryData(at + k, None, Typedef(at + k - 1)))
  }

  /** Entries from offset `at` on, of which the last declares `t`; `n` aliases follow each type. */
  function Layout(t: Type, at: nat, n: nat): (s: seq<EntryData>)
    requires Expressible(t)
    ensures s != []
    decreases t, 1
  {
    var own := OwnEntries(t, at, n);
    own + Aliases(at + |own|, n)
  }

  function OwnEntries(t: Type, at: nat, n: nat): (s: seq<EntryData>)
    requires Expressible(t)
    ensures s != []
    decreases t, 0
  {
    match t
    case PrimitiveType(p) => [EntryData(at, None, Base(BaseOf(p)))]
    case UnknownType => [EntryData(at, None, Base(BaseType(3, true)))]
    case FunctionType => [EntryData(at, None, Function)]
    case StructType(name) => [EntryData(at, Some(name), StructDeclaration)]
    case UnionType(name) => [EntryData(at, Some(name), Union(DwarfStruct(0, [])))]
    case PointerType(target) =>
      if target == UnknownType then [EntryData(at, None, Ptr(None))] else
      var below := Layout(target, at, n);
      below + [EntryData(at + |below|, None, Ptr(Some(at + |below| - 1)))]
    case ArrayType(element, dim) =>
      var below := Layout(element, at, n);
      below + [EntryData(at + |below|, None, Array(at + |below| - 1, dim))]
    case BitfieldType => []
  }

  /** Entries at consecutive offsets that refer back only. */
  ghost predicate LaidOut(s: seq<EntryData>, at: nat) {
    forall k :: 0 <= k < |s| ==>
      s[k].offset == at + k && (Needs(s[k].dwarfType).Some? ==> Needs(s[k].dwarfType).value < at + k)
  }

  ghost function InOrder(): Rank { o => o }

  lemma LaidOutIsSound(s: seq<EntryData>, at: nat)
    requires LaidOut(s, at)
    ensures Sorted(s) && Acyclic(s, InOrder())
  {
    forall e | e in s && Needs(e.dwarfType).Some? ensures Needs(e.dwarfType).value < e.offset {
      var k :| 0 <= k < |s| && s[k] == e;
    }
  }

  /** More entries after those of a type do not change what they resolve to. */
  lemma {:induction false} LaterEntries(s: seq<EntryData>, more: seq<EntryData>, at: nat, offset: nat)
    requires LaidOut(s, at) && LaidOut(s + more, at) && offset < at + |s|
    requires Acyclic(s, InOrder()) && Acyclic(s + more, InOrder())
    ensures Resolve(s + more, InOrder(), offset) == Resolve(s, InOrder(), offset)
    decreases offset
  {
    SameLookup(s, more, at, offset);
    var found := Lookup(s, offset);
    if found.Some? && Needs(found.value.dwarfType).Some? {
      LaterEntries(s, more, at, Needs(found.value.dwarfType).value);
    }
  }

  lemma SameLookup(s: seq<EntryData>, more: seq<EntryData>, at: nat, offset: nat)
    requires LaidOut(s, at) && LaidOut(s + more, at) && offset < at + |s|
    ensures Lookup(s + more, offset) == Lookup(s, offset)
  {
    hide Lookup, LaidOut;
    LookupLaid(s, at, offset);
    LookupLaid(s + more, at, offset);
  }

  lemma LookupLaid(s: seq<EntryData>, at: nat, offset: nat)
    requires LaidOut(s, at)
    ensures Lookup(s, offset) == if at <= offset < at + |s| then Some(s[offset - at]) else None
  {
    LaidOutIsSound(s, at);
    hide Lookup, Sorted, Acyclic;
    assert forall e :: e in s ==> at <= e.offset < at + |s|;
    if at <= offset < at + |s| {
      assert s[offset - at] in s;
      LookupIs(s, s[offset - at]);
    }
  }

  /** The last of the entries, at consecutive offsets from `at` on, resolves to `t`. */
  ghost predicate Lays(s: seq<EntryData>, at: nat, t: Option<Type>) {
    s != [] && LaidOut(s, at) && Acyclic(s, InOrder()) && Resolve(s, InOrder(), at + |s| - 1) == t
  }

  /** Adding an entry that needs none, or the last one. */
  lemma {:induction false} AddEntry(s: seq<EntryData>, last: EntryData, at: nat, t: Option<Type>)
    requires LaidOut(s, at) && last.offset == at + |s|
    requires Needs(last.dwarfType).Some? ==> Lays(s, at, t) && Needs(last.dwarfType).value == at + |s| - 1
    requires Needs(last.dwarfType).None? ==> t == None
    ensures Lays(s + [last], at, Classify(last, t))
  {
    hide Resolve, Classify, Lookup;
    var all := s + [last];
    assert LaidOut(all, at);
    LaidOutIsSound(s, at);
    LaidOutIsSound(all, at);
    assert all[|s|] == last && last in all;
    LookupIs(all, last);
    if Needs(last.dwarfType).Some? {
      LaterEntries(s, [last], at, at + |s| - 1);
    }
    ResolveLast(all, last, at + |s|);
  }

  lemma ResolveLast(g: seq<EntryData>, e: EntryData, offset: nat)
    requires Acyclic(g, InOrder()) && Lookup(g, offset) == Some(e)
    ensures Resolve(g, InOrder(), offset) ==
            Classify(e, if Needs(e.dwarfType).None? then None else Resolve(g, InOrder(), Needs(e.dwarfType).value))
  {
  }

  /** Aliases resolve to what the entry before them does. */
  lemma {:induction false} AddAliases(s: seq<EntryData>, at: nat, n: nat, t: Option<Type>)
    requires s != [] && Lays(s, at, t)
    ensures Lays(s + Aliases(at + |s|, n), at, t)
  {
    hide Lays;
    if n == 0 {
      assert s + Aliases(at + |s|, n) == s;
    } else {
      AddAliases(s, at, n - 1, t);
      AddAlias(s + Aliases(at + |s|, n - 1), at, t);
      var last := EntryData(at + |s| + n - 1, None, Typedef(at + |s| + n - 2));
      assert s + Aliases(at + |s|, n) == (s + Aliases(at + |s|, n - 1)) + [last];
    }
  }

  lemma {:induction false} AddAlias(s: seq<EntryData>, at: nat, t: Option<Type>)
    requires s != [] && Lays(s, at, t)
    ensures Lays(s + [EntryData(at + |s|, None, Typedef(at + |s| - 1))], at, t)
  {
    LaysIsLaidOut(s, at, t);
    hide Lays;
    AddEntry(s, EntryData(at + |s|, None, Typedef(at + |s| - 1)), at, t);
  }

  lemma LaysIsLaidOut(s: seq<EntryData>, at: nat, t: Option<Type>)
    requires Lays(s, at, t)
    ensures s != [] && LaidOut(s, at) && Sorted(s) && Acyclic(s, InOrder())
    ensures Resolve(s, InOrder(), at + |s| - 1) == t
  {
    LaidOutIsSound(s, at);
  }

  lemma {:induction false} LayoutLays(t: Type, at: nat, n: nat)
    requires Expressible(t)
    ensures Lays(Layout(t, at, n), at, Some(t))
    decreases t, 1
  {
    hide Lays;
    OwnEntriesLay(t, at, n);
    AddAliases(OwnEntries(t, at, n), at, n, Some(t));
  }

  lemma {:induction false} OwnEntriesLay(t: Type, at: nat, n: nat)
    requires Expressible(t)
    ensures Lays(OwnEntries(t, at, n), at, Some(t))
    decreases t, 0
  {
    hide Lays, OwnEntries, Layout;
    if t.PointerType? && t.target != UnknownType {
      LayoutLays(t.target, at, n);
      OwnOver(t.target, 0, at, n);
      AddOver(Layout(t.target, at, n), at, t.target, 0);
    } else if t.ArrayType? {
      LayoutLays(t.element, at, n);
      OwnOver(t.element, t.dim, at, n);
      AddOver(Layout(t.element, at, n), at, t.element, t.dim);
    } else {
      OwnOnly(t, at, n);
    }
  }

  /** A pointer or array after the entries of what it refers to. */
  lemma {:induction false} OwnOver(target: Type, dim: u32, at: nat, n: nat)
    requires Expressible(target)
    ensures var below := Layout(target, at, n);
            && (target != UnknownType ==>
                  OwnEntries(PointerType(target), at, n)
                  == below + [EntryData(at + |below|, None, Ptr(Some(at + |below| - 1)))])
            && OwnEntries(ArrayType(target, dim), at, n)
               == below + [EntryData(at + |below|, None, Array(at + |below| - 1, dim))]
  {
    hide Layout;
  }

  lemma {:induction false} AddOver(s: seq<EntryData>, at: nat, under: Type, dim: u32)
    requires s != [] && Lays(s, at, Some(under))
    ensures Lays(s + [EntryData(at + |s|, None, Ptr(Some(at + |s| - 1)))], at, Some(PointerType(under)))
    ensures Lays(s + [EntryData(at + |s|, None, Array(at + |s| - 1, dim))], at, Some(ArrayType(under, dim)))
  {
    LaysIsLaidOut(s, at, Some(under));
    hide Lays;
    AddEntry(s, EntryData(at + |s|, None, Ptr(Some(at + |s| - 1))), at, Some(under));
    AddEntry(s, EntryData(at + |s|, None, Array(at + |s| - 1, dim)), at, Some(under));
  }

  lemma {:induction false} OwnOnly(t: Type, at: nat, n: nat)
    requires Expressible(t) && !t.ArrayType? && (t.PointerType? ==> t.target == UnknownType)
    ensures Lays(OwnEntries(t, at, n), at, Some(t))
  {
    hide Layout, Lays;
    var s := OwnEntries(t, at, n);
    assert s == [] + [s[0]];
    AddEntry([], s[0], at, None);
  }

  /** The round trip: entries for any expressible type, with any number of aliases in between,
      resolve to that type. */
  lemma LayoutResolves(t: Type, at: nat, n: nat)
    requires Expressible(t)
    ensures var s := Layout(t, at, n);
            Sorted(s) && Acyclic(s, InOrder()) && Resolve(s, InOrder(), at + |s| - 1) == Some(t)
  {
    hide Lays, Resolve;
    LayoutLays(t, at, n);
    LaysIsLaidOut(Layout(t, at, n), at, Some(t));
  }
}
