/** Collecting the fields of a structure, through its anonymous structures and unions (DWARF 5,
    section 5.7.6). */
module StructFields {
  import opened Outcomes
  import opened Bytes
  import opened TypeResolution
  import opened TypeLayouts

  datatype StructField = StructField(name: string, offset: nat, typ: Type)

  /** The structure or union that an anonymous member at a byte offset stands for. */
  function Anonymous(g: seq<EntryData>, m: Member): Option<DwarfStruct> {
    if m.offset.InBits? || m.name.Some? then None else
    match Lookup(g, m.typ)
    case None => None
    case Some(e) =>
      if e.dwarfType.Struct? || e.dwarfType.Union? then Some(e.dwarfType.members) else None
  }

  /** Anonymous members are nested at most `n` deep. */
  ghost predicate NestsWithin(g: seq<EntryData>, ms: seq<Member>, n: nat)
    decreases n
  {
    forall m :: m in ms && Anonymous(g, m).Some? ==> n > 0 && NestsWithin(g, Anonymous(g, m).value.members, n - 1)
  }

  ghost function FieldType(g: seq<EntryData>, rank: Rank, typ: nat): Type
    requires Acyclic(g, rank)
  {
    match Resolve(g, rank, typ) case Some(t) => t case None => UnknownType
  }

  /** The fields of one member, at `base`. */
  ghost function MemberFields(g: seq<EntryData>, rank: Rank, base: nat, m: Member, n: nat): seq<StructField>
    requires Acyclic(g, rank) && NestsWithin(g, [m], n)
    decreases n, 0, 0
  {
    if m.offset.InBits? then []
    else if m.name.Some? then [StructField(m.name.value, base + m.offset.bytes, FieldType(g, rank, m.typ))]
    else if Anonymous(g, m).Some? then
      assert m in [m];
      Fields(g, rank, base + m.offset.bytes, Anonymous(g, m).value.members, n - 1)
    else []
  }

  ghost function Fields(g: seq<EntryData>, rank: Rank, base: nat, ms: seq<Member>, n: nat): seq<StructField>
    requires Acyclic(g, rank) && NestsWithin(g, ms, n)
    decreases n, 1, |ms|
  {
    if ms == [] then [] else
    NestsParts(g, ms, |ms| - 1, n);
    Fields(g, rank, base, ms[..|ms|-1], n) + MemberFields(g, rank, base, ms[|ms|-1], n)
  }

  lemma NestsParts(g: seq<EntryData>, ms: seq<Member>, i: nat, n: nat)
    requires NestsWithin(g, ms, n) && i < |ms|
    ensures NestsWithin(g, ms[..i], n) && NestsWithin(g, ms[..i+1], n) && NestsWithin(g, [ms[i]], n)
  {
    assert ms[i] in ms;
    assert forall m :: m in ms[..i] || m in ms[..i+1] || m in [ms[i]] ==> m in ms;
  }

  method CollectFieldsInto(fields: seq<StructField>, base: nat, types: TypeList, s: DwarfStruct, ghost n: nat)
    returns (out: seq<StructField>)
    requires types.Valid() && NestsWithin(types.Graph(), s.members, n)
    modifies types.types
    ensures types.Valid()
    ensures out == fields + Fields(types.Graph(), types.rank, base, s.members, n)
    decreases n, 1
  {
    hide Fields, MemberFields, NestsWithin;
    out := fields;
    ghost var g, rank, ms := types.Graph(), types.rank, s.members;
    FieldsOfNothing(g, rank, base, ms, n);
    assert fields + [] == fields;
    for i := 0 to |s.members|
      invariant types.Valid() && types.Graph() == g
      invariant NestsWithin(g, ms[..i], n)
      invariant out == fields + Fields(g, rank, base, ms[..i], n)
    {
      NestsParts(g, ms, i, n);
      FieldsStep(g, rank, base, ms, i, n);
      Regroup(fields, Fields(g, rank, base, ms[..i], n), MemberFields(g, rank, base, ms[i], n));
      out := CollectMember(out, base, types, s.members[i], n);
    }
    assert ms[..|ms|] == ms;
  }

  lemma FieldsOfNothing(g: seq<EntryData>, rank: Rank, base: nat, ms: seq<Member>, n: nat)
    requires Acyclic(g, rank)
    ensures NestsWithin(g, ms[..0], n) && Fields(g, rank, base, ms[..0], n) == []
  {
  }

  lemma Regroup<T>(a: seq<T>, b: seq<T>, c: seq<T>)
    ensures (a + b) + c == a + (b + c)
  {
  }

  lemma AnonymousIs(g: seq<EntryData>, m: Member)
    requires m.offset.InBytes? && m.name.None?
    ensures match Lookup(g, m.typ)
            case None => Anonymous(g, m) == None
            case Some(e) =>
              Anonymous(g, m) == if e.dwarfType.Struct? || e.dwarfType.Union? then Some(e.dwarfType.members) else None
  {
  }

  lemma MemberFieldsIs(g: seq<EntryData>, rank: Rank, base: nat, m: Member, n: nat)
    requires Acyclic(g, rank) && NestsWithin(g, [m], n)
    ensures m.offset.InBits? ==> MemberFields(g, rank, base, m, n) == []
    ensures m.offset.InBytes? && m.name.Some? ==>
              MemberFields(g, rank, base, m, n) == [StructField(m.name.value, base + m.offset.bytes, FieldType(g, rank, m.typ))]
    ensures m.offset.InBytes? && m.name.None? && Anonymous(g, m).None? ==> MemberFields(g, rank, base, m, n) == []
    ensures m.offset.InBytes? && m.name.None? && Anonymous(g, m).Some? ==>
              && n > 0 && NestsWithin(g, Anonymous(g, m).value.members, n - 1)
              && MemberFields(g, rank, base, m, n)
                 == Fields(g, rank, base + m.offset.bytes, Anonymous(g, m).value.members, n - 1)
  {
    assert m in [m];
  }

  /** The body of the loop: bit fields are ignored, named members added, anonymous structures and
      unions entered. */
  method CollectMember(fields: seq<StructField>, base: nat, types: TypeList, m: Member, ghost n: nat)
    returns (out: seq<StructField>)
    requires types.Valid() && NestsWithin(types.Graph(), [m], n)
    modifies types.types
    ensures types.Valid()
    ensures out == fields + MemberFields(types.Graph(), types.rank, base, m, n)
    decreases n, 0
  {
    hide Fields, MemberFields, NestsWithin, Resolve, Lookup, Sorted, Anonymous;
    assert fields + [] == fields;
    ghost var g, rank := types.Graph(), types.rank;
    MemberFieldsIs(g, rank, base, m, n);
    match m.offset {
      case InBits(_) => out := fields;
      case InBytes(bytes) =>
        match m.name {
          case Some(name) =>
            var typ := types.GetType(m.typ);
            out := fields + [StructField(name, base + bytes, if typ.Some? then typ.value else UnknownType)];
          case None =>
            out := fields;
            var entry := types.FindByOffset(m.typ);
            AnonymousIs(g, m);
            if entry.Some? {
              var t := entry.value.data.dwarfType;
              if t.Struct? || t.Union? {
                out := CollectFieldsInto(fields, base + bytes, types, t.members, n - 1);
              }
            }
        }
    }
  }

  lemma FieldsStep(g: seq<EntryData>, rank: Rank, base: nat, ms: seq<Member>, i: nat, n: nat)
    requires Acyclic(g, rank) && NestsWithin(g, ms, n) && i < |ms|
    requires NestsWithin(g, ms[..i], n) && NestsWithin(g, ms[..i+1], n) && NestsWithin(g, [ms[i]], n)
    ensures Fields(g, rank, base, ms[..i+1], n) == Fields(g, rank, base, ms[..i], n) + MemberFields(g, rank, base, ms[i], n)
  {
    assert ms[..i+1][..i] == ms[..i];
  }

  method CollectFields(types: TypeList, s: DwarfStruct, ghost n: nat) returns (out: seq<StructField>)
    requires types.Valid() && NestsWithin(types.Graph(), s.members, n)
    modifies types.types
    ensures types.Valid()
    ensures out == Fields(types.Graph(), types.rank, 0, s.members, n)
  {
    out := CollectFieldsInto([], 0, types, s, n);
  }

  // ---- What the fields are: the named members reachable along paths

  /** Entered are exactly the members without a name, at a byte offset, whose type is a structure
      or union. */
  lemma AnonymousExactly(g: seq<EntryData>, m: Member, s: DwarfStruct)
    requires Sorted(g)
    ensures Anonymous(g, m) == Some(s) <==>
            && m.offset.InBytes? && m.name.None?
            && exists e :: e in g && e.offset == m.typ && (e.dwarfType == Struct(s) || e.dwarfType == Union(s))
  {
    hide Sorted;
    forall e | e in g && e.offset == m.typ ensures Lookup(g, m.typ) == Some(e) {
      LookupIs(g, e);
    }
  }

  /** The type of a field is the one declared for its member, and the unknown one where none is. */
  lemma FieldTypeExactly(g: seq<EntryData>, rank: Rank, typ: nat, t: Type)
    requires Sorted(g) && Acyclic(g, rank)
    ensures FieldType(g, rank, typ) == t <==>
            Declares(g, rank, typ, t) || (t == UnknownType && Undeclared(g, rank, typ))
  {
    hide Sorted, Declares, Undeclared, Resolve;
    ResolvesExactly(g, rank, typ);
  }

  /** The member index at each level of nesting. */
  type Path = seq<nat>

  /** The named member at the end of a path through anonymous members, at the sum of the offsets
      along it. */
  function FieldAt(g: seq<EntryData>, base: nat, ms: seq<Member>, p: Path): Option<(string, nat, nat)>
    decreases |p|
  {
    if p == [] || p[0] >= |ms| || ms[p[0]].offset.InBits? then None else
    var m := ms[p[0]];
    if |p| == 1 then (if m.name.Some? then Some((m.name.value, base + m.offset.bytes, m.typ)) else None)
    else if Anonymous(g, m).Some? then FieldAt(g, base + m.offset.bytes, Anonymous(g, m).value.members, p[1..])
    else None
  }

  /** Declaration order: of the first members that differ. */
  predicate Before(p: Path, q: Path) {
    q != [] && (p == [] || p[0] < q[0] || (p[0] == q[0] && Before(p[1..], q[1..])))
  }

  ghost predicate InOrder(paths: seq<Path>) {
    forall i, j :: 0 <= i < j < |paths| ==> Before(paths[i], paths[j])
  }

  /** `paths` are those of the fields, one for each. */
  ghost predicate Leads(g: seq<EntryData>, rank: Rank, base: nat, ms: seq<Member>, paths: seq<Path>, fields: seq<StructField>)
    requires Acyclic(g, rank)
  {
    && |paths| == |fields|
    && forall k :: 0 <= k < |paths| ==>
         var at := FieldAt(g, base, ms, paths[k]);
         at.Some? && fields[k] == StructField(at.value.0, at.value.1, FieldType(g, rank, at.value.2))
  }

  function Prefixed(i: nat, paths: seq<Path>): (r: seq<Path>)
    ensures |r| == |paths|
  {
    seq(|paths|, k requires 0 <= k < |paths| => [i] + paths[k])
  }

  /** At any depth of nesting the fields collected are exactly the named members at byte offsets
      reachable through anonymous structures and unions, each once, in declaration order, and each
      at the sum of the offsets on its path. */
  lemma {:induction false} FieldsAreReachableMembers(g: seq<EntryData>, rank: Rank, base: nat, ms: seq<Member>, n: nat)
    returns (paths: seq<Path>)
    requires Acyclic(g, rank) && NestsWithin(g, ms, n)
    ensures Leads(g, rank, base, ms, paths, Fields(g, rank, base, ms, n))
    ensures InOrder(paths)
    ensures forall p: Path :: p in paths <==> FieldAt(g, base, ms, p).Some?
    decreases n
  {
    paths := FieldsUpTo(g, rank, base, ms, |ms|, n);
    assert ms[..|ms|] == ms;
  }

  lemma {:induction false} FieldsUpTo(g: seq<EntryData>, rank: Rank, base: nat, ms: seq<Member>, i: nat, n: nat)
    returns (paths: seq<Path>)
    requires Acyclic(g, rank) && NestsWithin(g, ms, n) && i <= |ms| && NestsWithin(g, ms[..i], n)
    ensures Leads(g, rank, base, ms, paths, Fields(g, rank, base, ms[..i], n))
    ensures InOrder(paths)
    ensures forall p :: p in paths ==> p != [] && p[0] < i
    ensures forall p: Path :: FieldAt(g, base, ms, p).Some? && p[0] < i ==> p in paths
    decreases n, i
  {
    hide Fields, MemberFields, Leads, InOrder;
    if i == 0 {
      NoPaths(g, rank, base, ms, n);
      paths := [];
    } else {
      NestsParts(g, ms, i - 1, n);
      FieldsStep(g, rank, base, ms, i - 1, n);
      var front := FieldsUpTo(g, rank, base, ms, i - 1, n);
      var own := MemberPaths(g, rank, base, ms, i - 1, n);
      paths := front + own;
      LeadsJoin(g, rank, base, ms, front, Fields(g, rank, base, ms[..i-1], n), own, MemberFields(g, rank, base, ms[i-1], n));
      OrderJoin(front, own, i - 1);
      assert forall p :: p in paths <==> p in front || p in own;
    }
  }

  lemma LeadsJoin(g: seq<EntryData>, rank: Rank, base: nat, ms: seq<Member>,
                  front: seq<Path>, fields: seq<StructField>, own: seq<Path>, more: seq<StructField>)
    requires Acyclic(g, rank) && Leads(g, rank, base, ms, front, fields) && Leads(g, rank, base, ms, own, more)
    ensures Leads(g, rank, base, ms, front + own, fields + more)
  {
    hide FieldAt, FieldType;
    var paths, all := front + own, fields + more;
    forall k | 0 <= k < |paths|
      ensures var at := FieldAt(g, base, ms, paths[k]);
              at.Some? && all[k] == StructField(at.value.0, at.value.1, FieldType(g, rank, at.value.2))
    {
      if k < |front| {
        assert paths[k] == front[k] && all[k] == fields[k];
      } else {
        assert paths[k] == own[k - |front|] && all[k] == more[k - |front|];
      }
    }
  }

  lemma OrderJoin(front: seq<Path>, own: seq<Path>, i: nat)
    requires InOrder(front) && InOrder(own)
    requires forall p :: p in front ==> p != [] && p[0] < i
    requires forall p :: p in own ==> p != [] && p[0] == i
    ensures InOrder(front + own)
  {
    var paths := front + own;
    forall j, k | 0 <= j < k < |paths| ensures Before(paths[j], paths[k]) {
      if j < |front| { assert paths[j] in front; }
      if k >= |front| { assert paths[k] in own; }
    }
  }

  /** The paths through one member. */
  lemma {:induction false} MemberPaths(g: seq<EntryData>, rank: Rank, base: nat, ms: seq<Member>, i: nat, n: nat)
    returns (paths: seq<Path>)
    requires Acyclic(g, rank) && NestsWithin(g, ms, n) && i < |ms| && NestsWithin(g, [ms[i]], n)
    ensures Leads(g, rank, base, ms, paths, MemberFields(g, rank, base, ms[i], n))
    ensures InOrder(paths)
    ensures forall p :: p in paths ==> p != [] && p[0] == i
    ensures forall p: Path :: FieldAt(g, base, ms, p).Some? && p[0] == i ==> p in paths
    decreases n, 0
  {
    var m := ms[i];
    if m.offset.InBytes? && m.name.Some? {
      paths := [[i]];
      forall p: Path | FieldAt(g, base, ms, p).Some? && p[0] == i ensures p in paths {
        assert p == [i];
      }
    } else if Anonymous(g, m).Some? {
      assert m in [m];
      var inner := Anonymous(g, m).value.members;
      var below := FieldsAreReachableMembers(g, rank, base + m.offset.bytes, inner, n - 1);
      paths := Prefixed(i, below);
      PrefixedPaths(g, rank, base, ms, i, inner, below, Fields(g, rank, base + m.offset.bytes, inner, n - 1));
    } else {
      paths := [];
    }
  }

  lemma NoPaths(g: seq<EntryData>, rank: Rank, base: nat, ms: seq<Member>, n: nat)
    requires Acyclic(g, rank)
    ensures NestsWithin(g, ms[..0], n) && Leads(g, rank, base, ms, [], Fields(g, rank, base, ms[..0], n)) && InOrder([])
  {
  }

  /** Entering an anonymous member prefixes every path with its index. */
  lemma PrefixedPaths(g: seq<EntryData>, rank: Rank, base: nat, ms: seq<Member>, i: nat, inner: seq<Member>,
                      below: seq<Path>, fields: seq<StructField>)
    requires Acyclic(g, rank) && i < |ms|
    requires Anonymous(g, ms[i]).Some? && inner == Anonymous(g, ms[i]).value.members
    requires Leads(g, rank, base + ms[i].offset.bytes, inner, below, fields) && InOrder(below)
    requires forall p: Path :: p in below <==> FieldAt(g, base + ms[i].offset.bytes, inner, p).Some?
    ensures Leads(g, rank, base, ms, Prefixed(i, below), fields) && InOrder(Prefixed(i, below))
    ensures forall p: Path :: FieldAt(g, base, ms, p).Some? && p[0] == i ==> p in Prefixed(i, below)
  {
    hide Leads;
    var paths := Prefixed(i, below);
    PrefixedLeads(g, rank, base, ms, i, inner, below, fields);
    forall p: Path | FieldAt(g, base, ms, p).Some? && p[0] == i ensures p in paths {
      assert p == [i] + p[1..] && p[1..] in below;
      var k :| 0 <= k < |below| && below[k] == p[1..];
      assert paths[k] == p;
    }
    forall j, k | 0 <= j < k < |paths| ensures Before(paths[j], paths[k]) {
      assert paths[j][1..] == below[j] && paths[k][1..] == below[k];
    }
  }

  lemma PrefixedLeads(g: seq<EntryData>, rank: Rank, base: nat, ms: seq<Member>, i: nat, inner: seq<Member>,
                      below: seq<Path>, fields: seq<StructField>)
    requires Acyclic(g, rank) && i < |ms|
    requires Anonymous(g, ms[i]).Some? && inner == Anonymous(g, ms[i]).value.members
    requires Leads(g, rank, base + ms[i].offset.bytes, inner, below, fields)
    ensures Leads(g, rank, base, ms, Prefixed(i, below), fields)
  {
    hide FieldType;
    var paths := Prefixed(i, below);
    forall k | 0 <= k < |below| ensures FieldAt(g, base, ms, paths[k]) == FieldAt(g, base + ms[i].offset.bytes, inner, below[k]) {
      assert paths[k][1..] == below[k] && below[k] != [];
    }
  }
}
