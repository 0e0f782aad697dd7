/** The tree of the memory areas of a Windows process: walking it in order with a callback that may
    stop the walk, and descending it to the area that holds an address. Any pointer or field of it
    may lie in memory that cannot be read. */
module VadTree {
  import opened Outcomes
  import opened Bytes

  datatype VmError = Unreadable | FromCallback(code: nat)

  datatype Flow = Continue | Break

  datatype Ordering = Less | Equal | Greater

  /** A node, with the raw fields the page numbers are read from; the two flags say whether the
      fields of the first and of the last page can be read. */
  datatype Mmvad = Mmvad(address: u64,
                         startingVpn: u64, startingVpnHigh: byte, startReads: bool,
                         endingVpn: u64, endingVpnHigh: byte, endReads: bool)

  /** The tree as the guest sees it, and which of its child pointers can be read. */
  datatype Tree =
    | Null
    | Node(left: Tree, leftReads: bool, vad: Mmvad, right: Tree, rightReads: bool)

  type Callback<!S> = (S, Mmvad) -> (S, Result<Flow, VmError>)

  // ---- Walking the tree

  /** The state is what the callback captures. */
  function IterateTree<S>(t: Tree, f: Callback<S>, s: S): (S, Result<Flow, VmError>) {
    if t.Null? || !t.leftReads then (s, Err(Unreadable)) else
    var left := if t.left.Null? then (s, Ok(Continue)) else IterateTree(t.left, f, s);
    if left.1 != Ok(Continue) then left else
    var own := f(left.0, t.vad);
    if own.1 != Ok(Continue) then own else
    if !t.rightReads then (own.0, Err(Unreadable)) else
    if t.right.Null? then own else IterateTree(t.right, f, own.0)
  }

  /** What a walk meets: nodes, and pointers it cannot follow. */
  datatype Visit = At(vad: Mmvad) | Fault

  function Visits(t: Tree): seq<Visit> {
    if t.Null? then [] else
    (if t.leftReads then Visits(t.left) else [Fault])
    + [At(t.vad)]
    + (if t.rightReads then Visits(t.right) else [Fault])
  }

  /** Calling `f` on each visit in turn until it breaks, fails, or a pointer cannot be followed. */
  function Scan<S>(vs: seq<Visit>, f: Callback<S>, s: S): (S, Result<Flow, VmError>) {
    if vs == [] then (s, Ok(Continue))
    else if vs[0].Fault? then (s, Err(Unreadable))
    else
      var own := f(s, vs[0].vad);
      if own.1 == Ok(Continue) then Scan(vs[1..], f, own.0) else own
  }

  lemma {:induction false} ScanJoin<S>(a: seq<Visit>, b: seq<Visit>, f: Callback<S>, s: S)
    ensures Scan(a + b, f, s)
            == if Scan(a, f, s).1 == Ok(Continue) then Scan(b, f, Scan(a, f, s).0) else Scan(a, f, s)
  {
    if a == [] {
      assert a + b == b;
    } else {
      assert (a + b)[1..] == a[1..] + b;
      if a[0].At? && f(s, a[0].vad).1 == Ok(Continue) {
        ScanJoin(a[1..], b, f, f(s, a[0].vad).0);
      }
    }
  }

  /** For every callback, the recursive walk is the scan of the nodes in order: each node once, and
      nothing after a break or an error. */
  lemma {:induction false} IterateIsScan<S>(t: Tree, f: Callback<S>, s: S)
    requires t.Node?
    ensures IterateTree(t, f, s) == Scan(Visits(t), f, s)
  {
    var l := if t.leftReads then Visits(t.left) else [Fault];
    var r := if t.rightReads then Visits(t.right) else [Fault];
    ScanJoin(l + [At(t.vad)], r, f, s);
    ScanJoin(l, [At(t.vad)], f, s);
    if t.leftReads && t.left.Node? {
      IterateIsScan(t.left, f, s);
    }
    var own := f(Scan(l, f, s).0, t.vad);
    assert Scan([At(t.vad)], f, Scan(l, f, s).0) == own by {
      assert [At(t.vad)][1..] == [];
    }
    if t.rightReads && t.right.Node? {
      IterateIsScan(t.right, f, own.0);
    }
  }

  // ---- The pages of an area

  /** The first byte of an area. Where the profile knows the high part, the field of the low part
      has 32 bits only and what follows it has to be dropped. */
  function VmaStart(split: bool, v: Mmvad): (a: u64) {
    var vpn := if split then v.startingVpnHigh * 0x1_0000_0000 + v.startingVpn % 0x1_0000_0000 else v.startingVpn;
    vpn * 4096 % 0x1_0000_0000_0000_0000
  }

  function VmaEnd(split: bool, v: Mmvad): (a: u64) {
    var vpn := if split then v.endingVpnHigh * 0x1_0000_0000 + v.endingVpn % 0x1_0000_0000 else v.endingVpn;
    (vpn + 1) * 4096 % 0x1_0000_0000_0000_0000
  }

  function ReadStart(split: bool, v: Mmvad): Result<u64, VmError> {
    if v.startReads then Ok(VmaStart(split, v)) else Err(Unreadable)
  }

  function ReadEnd(split: bool, v: Mmvad): Result<u64, VmError> {
    if v.endReads then Ok(VmaEnd(split, v)) else Err(Unreadable)
  }

  /** Whatever follows the low parts in memory, an area of the pages `first` to `last` starts with
      the one and ends after the other. */
  lemma SplitPageNumbers(v: Mmvad, first: nat, last: nat, after: u32, after': u32)
    requires first <= last < 0x100_0000_0000
    requires v.startingVpn == first % 0x1_0000_0000 + 0x1_0000_0000 * after
    requires v.startingVpnHigh == first / 0x1_0000_0000
    requires v.endingVpn == last % 0x1_0000_0000 + 0x1_0000_0000 * after'
    requires v.endingVpnHigh == last / 0x1_0000_0000
    ensures VmaStart(true, v) == 4096 * first && VmaEnd(true, v) == 4096 * last + 4096
    ensures VmaStart(true, v) < VmaEnd(true, v)
  {
    assert v.startingVpn % 0x1_0000_0000 == first % 0x1_0000_0000;
    assert v.endingVpn % 0x1_0000_0000 == last % 0x1_0000_0000;
  }

  /** Without high parts in the profile, the fields are the page numbers. */
  lemma WholePageNumbers(v: Mmvad, first: nat, last: nat)
    requires first <= last < 0xf_ffff_ffff_ffff
    requires v.startingVpn == first && v.endingVpn == last
    ensures VmaStart(false, v) == 4096 * first && VmaEnd(false, v) == 4096 * last + 4096
    ensures VmaStart(false, v) < VmaEnd(false, v)
  {
  }

  // ---- Descending the tree

  function FindInTree(t: Tree, f: Mmvad -> Result<Ordering, VmError>): Result<Option<Mmvad>, VmError> {
    if t.Null? then Err(Unreadable) else
    match f(t.vad)
    case Err(e) => Err(e)
    case Ok(Less) =>
      if !t.rightReads then Err(Unreadable) else if t.right.Null? then Ok(None) else FindInTree(t.right, f)
    case Ok(Equal) => Ok(Some(t.vad))
    case Ok(Greater) =>
      if !t.leftReads then Err(Unreadable) else if t.left.Null? then Ok(None) else FindInTree(t.left, f)
  }

  function Compare(split: bool, addr: u64, v: Mmvad): Result<Ordering, VmError> {
    match ReadStart(split, v)
    case Err(e) => Err(e)
    case Ok(start) =>
      if addr < start then Ok(Greater) else
      match ReadEnd(split, v)
      case Err(e) => Err(e)
      case Ok(end) => if addr < end then Ok(Equal) else Ok(Less)
  }

  /** What Windows overrides the search for an area with. */
  function FindVmaByAddress(root: Tree, split: bool, addr: u64): Result<Option<Mmvad>, VmError> {
    FindInTree(root, v => Compare(split, addr, v))
  }

  // ---- The search every other system uses

  function Contains(split: bool, addr: u64, v: Mmvad): Result<bool, VmError> {
    match ReadStart(split, v)
    case Err(e) => Err(e)
    case Ok(start) =>
      if addr < start then Ok(false) else
      match ReadEnd(split, v)
      case Err(e) => Err(e)
      case Ok(end) => Ok(addr < end)
  }

  /** A callback that keeps the first item a predicate holds of, and stops there. */
  function Find(p: Mmvad -> Result<bool, VmError>): Callback<Option<Mmvad>> {
    (found, v) =>
      match p(v)
      case Err(e) => (found, Err(e))
      case Ok(b) => if b then (Some(v), Ok(Break)) else (found, Ok(Continue))
  }

  function ScanVmaByAddress(root: Tree, split: bool, addr: u64): Result<Option<Mmvad>, VmError> {
    var end := IterateTree(root, Find(v => Contains(split, addr, v)), None);
    if end.1.Err? then Err(end.1.error) else Ok(end.0)
  }

  // ---- The two agree

  function Nodes(t: Tree): seq<Mmvad> {
    if t.Null? then [] else Nodes(t.left) + [t.vad] + Nodes(t.right)
  }

  predicate Covers(split: bool, addr: u64, v: Mmvad) {
    VmaStart(split, v) <= addr < VmaEnd(split, v)
  }

  /** The areas are disjoint and the tree is ordered by them. */
  ghost predicate Ordered(split: bool, t: Tree) {
    && (forall v :: v in Nodes(t) ==> VmaStart(split, v) < VmaEnd(split, v))
    && (t.Node? ==>
          && Ordered(split, t.left) && Ordered(split, t.right)
          && (forall v :: v in Nodes(t.left) ==> VmaEnd(split, v) <= VmaStart(split, t.vad))
          && (forall v :: v in Nodes(t.right) ==> VmaEnd(split, t.vad) <= VmaStart(split, v)))
  }

  predicate AllReadable(t: Tree) {
    t.Node? ==>
      && t.leftReads && t.rightReads && t.vad.startReads && t.vad.endReads
      && AllReadable(t.left) && AllReadable(t.right)
  }

  /** The right answer, whatever can be read. */
  ghost predicate IsHolder(t: Tree, split: bool, addr: u64, found: Option<Mmvad>) {
    match found
    case Some(v) => v in Nodes(t) && Covers(split, addr, v)
    case None => forall v :: v in Nodes(t) ==> !Covers(split, addr, v)
  }

  lemma OrderedParts(split: bool, t: Tree)
    requires Ordered(split, t) && t.Node?
    ensures Ordered(split, t.left) && Ordered(split, t.right) && VmaStart(split, t.vad) < VmaEnd(split, t.vad)
    ensures forall v :: v in Nodes(t.left) ==> VmaStart(split, v) < VmaEnd(split, v) <= VmaStart(split, t.vad)
    ensures forall v :: v in Nodes(t.right) ==> VmaEnd(split, t.vad) <= VmaStart(split, v) < VmaEnd(split, v)
  {
    hide VmaStart, VmaEnd;
    assert forall v :: v in Nodes(t) <==> v in Nodes(t.left) || v == t.vad || v in Nodes(t.right);
  }

  lemma {:induction false} NodeAt(t: Tree, k: nat)
    requires k < |Nodes(t)|
    ensures t.Node?
    ensures k < |Nodes(t.left)| ==> Nodes(t)[k] == Nodes(t.left)[k] && Nodes(t)[k] in Nodes(t.left)
    ensures k == |Nodes(t.left)| ==> Nodes(t)[k] == t.vad
    ensures k > |Nodes(t.left)| ==>
              var r := k - |Nodes(t.left)| - 1;
              r < |Nodes(t.right)| && Nodes(t)[k] == Nodes(t.right)[r] && Nodes(t)[k] in Nodes(t.right)
  {
    assert t.Node?;
    JoinedAt(Nodes(t.left), t.vad, Nodes(t.right), k);
  }

  lemma JoinedAt<T>(left: seq<T>, own: T, right: seq<T>, k: nat)
    requires k < |left + [own] + right|
    ensures var all := left + [own] + right;
            && (k < |left| ==> all[k] == left[k])
            && (k == |left| ==> all[k] == own)
            && (k > |left| ==> all[k] == right[k - |left| - 1])
  {
  }

  lemma {:induction false} NodesAscend(split: bool, t: Tree, i: nat, j: nat)
    requires Ordered(split, t) && i < j < |Nodes(t)|
    ensures VmaEnd(split, Nodes(t)[i]) <= VmaStart(split, Nodes(t)[j])
  {
    hide VmaStart, VmaEnd, Ordered, Nodes;
    NodeAt(t, i);
    NodeAt(t, j);
    OrderedParts(split, t);
    var l := |Nodes(t.left)|;
    if j < l {
      NodesAscend(split, t.left, i, j);
    } else if i > l {
      NodesAscend(split, t.right, i - l - 1, j - l - 1);
    }
  }

  lemma HolderIsUnique(t: Tree, split: bool, addr: u64, a: Option<Mmvad>, b: Option<Mmvad>)
    requires Ordered(split, t) && IsHolder(t, split, addr, a) && IsHolder(t, split, addr, b)
    ensures a == b
  {
    hide VmaStart, VmaEnd;
    if a.Some? && b.Some? {
      var i :| 0 <= i < |Nodes(t)| && Nodes(t)[i] == a.value;
      var j :| 0 <= j < |Nodes(t)| && Nodes(t)[j] == b.value;
      if i < j { NodesAscend(split, t, i, j); }
      if j < i { NodesAscend(split, t, j, i); }
    }
  }

  /** One step of the descent, and which nodes it leaves out. */
  lemma DescentStep(t: Tree, split: bool, addr: u64)
    requires t.Node?
    ensures var found := FindVmaByAddress(t, split, addr);
            var here := Compare(split, addr, t.vad);
            && (here.Err? ==> found.Err? && !(t.vad.startReads && t.vad.endReads))
            && (here == Ok(Equal) ==> Covers(split, addr, t.vad) && found == Ok(Some(t.vad)))
            && (here == Ok(Less) ==>
                  && VmaEnd(split, t.vad) <= addr
                  && found == if !t.rightReads then Err(Unreadable) else if t.right.Null? then Ok(None)
                              else FindVmaByAddress(t.right, split, addr))
            && (here == Ok(Greater) ==>
                  && addr < VmaStart(split, t.vad)
                  && found == if !t.leftReads then Err(Unreadable) else if t.left.Null? then Ok(None)
                              else FindVmaByAddress(t.left, split, addr))
  {
    hide VmaStart, VmaEnd;
  }

  /** Whatever cannot be read, the descent gives the right answer or an error. */
  lemma {:induction false} DescentNeverWrong(t: Tree, split: bool, addr: u64)
    requires Ordered(split, t)
    ensures FindVmaByAddress(t, split, addr).Ok? ==> IsHolder(t, split, addr, FindVmaByAddress(t, split, addr).value)
    ensures t.Node? && AllReadable(t) ==> FindVmaByAddress(t, split, addr).Ok?
  {
    hide VmaStart, VmaEnd, Ordered, Compare;
    if t.Node? {
      hide FindVmaByAddress;
      DescentStep(t, split, addr);
      OrderedParts(split, t);
      assert forall v :: v in Nodes(t) <==> v in Nodes(t.left) || v == t.vad || v in Nodes(t.right);
      DescentNeverWrong(t.left, split, addr);
      DescentNeverWrong(t.right, split, addr);
    }
  }

  /** The fields and pointers on the way down to an address can be read. */
  predicate PathReads(t: Tree, split: bool, addr: u64) {
    t.Node? && t.vad.startReads &&
    if addr < VmaStart(split, t.vad) then t.leftReads && (t.left.Null? || PathReads(t.left, split, addr))
    else
      t.vad.endReads &&
      (addr < VmaEnd(split, t.vad) || (t.rightReads && (t.right.Null? || PathReads(t.right, split, addr))))
  }

  /** And it fails only if something on the way down cannot be read. */
  lemma {:induction false} DescentFailsExactly(t: Tree, split: bool, addr: u64)
    ensures FindVmaByAddress(t, split, addr).Ok? <==> PathReads(t, split, addr)
  {
    hide VmaStart, VmaEnd;
    if t.Node? {
      DescentFailsExactly(t.left, split, addr);
      DescentFailsExactly(t.right, split, addr);
    }
  }

  /** The true nodes before the first fault. */
  lemma {:induction false} VisitedNodes(t: Tree)
    ensures forall x :: x in Visits(t) && x.At? ==> x.vad in Nodes(t)
    ensures Fault !in Visits(t) ==> forall v :: v in Nodes(t) ==> At(v) in Visits(t)
    ensures AllReadable(t) ==> Fault !in Visits(t)
    ensures AllReadable(t) ==> forall x :: x in Visits(t) ==> x.At? && x.vad.startReads && x.vad.endReads
  {
    if t.Node? {
      VisitedNodes(t.left);
      VisitedNodes(t.right);
    }
  }

  /** Scanning for an address keeps the first node that covers it. */
  lemma {:induction false} ScanFinds(vs: seq<Visit>, split: bool, addr: u64)
    ensures var end := Scan(vs, Find(v => Contains(split, addr, v)), None);
            && (end.1.Ok? && end.0.Some? ==> At(end.0.value) in vs && Covers(split, addr, end.0.value))
            && (end.1.Ok? && end.0.None? ==>
                  Fault !in vs && forall x :: x in vs && x.At? ==> !Covers(split, addr, x.vad))
            && ((forall x :: x in vs ==> x.At? && x.vad.startReads && x.vad.endReads) ==> end.1.Ok?)
  {
    hide VmaStart, VmaEnd;
    if vs != [] {
      ScanFinds(vs[1..], split, addr);
      assert forall x :: x in vs <==> x == vs[0] || x in vs[1..];
    }
  }

  lemma ScanNeverWrong(t: Tree, split: bool, addr: u64)
    requires t.Node?
    ensures ScanVmaByAddress(t, split, addr).Ok? ==> IsHolder(t, split, addr, ScanVmaByAddress(t, split, addr).value)
    ensures AllReadable(t) ==> ScanVmaByAddress(t, split, addr).Ok?
  {
    IterateIsScan(t, Find(v => Contains(split, addr, v)), None);
    ScanFinds(Visits(t), split, addr);
    VisitedNodes(t);
  }

  /** In an ordered tree the descent finds the very node the walk stops at first, whenever memory
      that cannot be read does not make either of them fail; on a readable tree neither fails. */
  lemma DescentIsScan(t: Tree, split: bool, addr: u64)
    requires t.Node? && Ordered(split, t)
    ensures FindVmaByAddress(t, split, addr).Ok? && ScanVmaByAddress(t, split, addr).Ok? ==>
              FindVmaByAddress(t, split, addr) == ScanVmaByAddress(t, split, addr)
    ensures AllReadable(t) ==>
              FindVmaByAddress(t, split, addr).Ok? && FindVmaByAddress(t, split, addr) == ScanVmaByAddress(t, split, addr)
  {
    DescentNeverWrong(t, split, addr);
    ScanNeverWrong(t, split, addr);
    var a, b := FindVmaByAddress(t, split, addr), ScanVmaByAddress(t, split, addr);
    if a.Ok? && b.Ok? {
      HolderIsUnique(t, split, addr, a.value, b.value);
    }
  }

  // ---- Collecting the areas

  function PushTo(): Callback<seq<Mmvad>> {
    (vec, v) => (vec + [v], Ok(Continue))
  }

  function Found(vs: seq<Visit>): seq<Mmvad> {
    if vs == [] || vs[0].Fault? then [] else [vs[0].vad] + Found(vs[1..])
  }

  lemma {:induction false} ScanCollects(vs: seq<Visit>, vec: seq<Mmvad>)
    ensures Scan(vs, PushTo(), vec) == (vec + Found(vs), if Fault in vs then Err(Unreadable) else Ok(Continue))
  {
    if vs == [] {
      assert vec + [] == vec;
    } else if vs[0].Fault? {
      assert vec + [] == vec;
    } else {
      ScanCollects(vs[1..], vec + [vs[0].vad]);
      assert vec + [vs[0].vad] + Found(vs[1..]) == vec + ([vs[0].vad] + Found(vs[1..]));
      assert Fault in vs <==> Fault in vs[1..];
    }
  }

  lemma {:induction false} FoundJoin(a: seq<Visit>, b: seq<Visit>)
    requires Fault !in a
    ensures Found(a + b) == Found(a) + Found(b)
  {
    if a == [] {
      assert a + b == b;
    } else {
      assert a[0] in a && a[0] != Fault;
      assert (a + b)[1..] == a[1..] + b;
      FoundJoin(a[1..], b);
    }
  }

  lemma UnreadableFaults(t: Tree)
    ensures t.Node? && !(t.leftReads && t.rightReads) ==> Fault in Visits(t)
  {
  }

  lemma {:induction false} FoundIsNodes(t: Tree)
    requires Fault !in Visits(t)
    ensures Found(Visits(t)) == Nodes(t)
  {
    if t.Node? {
      UnreadableFaults(t);
      assert Visits(t) == Visits(t.left) + [At(t.vad)] + Visits(t.right);
      FoundIsNodes(t.left);
      FoundIsNodes(t.right);
      FoundJoin(Visits(t.left) + [At(t.vad)], Visits(t.right));
      FoundJoin(Visits(t.left), [At(t.vad)]);
      assert Found([At(t.vad)]) == [t.vad] by { assert [At(t.vad)][1..] == []; }
    }
  }

  /** A walk that is never stopped visits every node exactly once, in ascending order of the
      disjoint areas, unless it meets a pointer that cannot be read. */
  lemma CollectsEveryNode(t: Tree, split: bool)
    requires t.Node? && Ordered(split, t)
    ensures IterateTree(t, PushTo(), []).1.Ok? ==> IterateTree(t, PushTo(), []).0 == Nodes(t)
    ensures AllReadable(t) ==> IterateTree(t, PushTo(), []).1.Ok?
    ensures forall i, j :: 0 <= i < j < |Nodes(t)| ==> VmaEnd(split, Nodes(t)[i]) <= VmaStart(split, Nodes(t)[j])
  {
    IterateIsScan(t, PushTo(), []);
    ScanCollects(Visits(t), []);
    VisitedNodes(t);
    if Fault !in Visits(t) {
      FoundIsNodes(t);
    }
    forall i, j | 0 <= i < j < |Nodes(t)| ensures VmaEnd(split, Nodes(t)[i]) <= VmaStart(split, Nodes(t)[j]) {
      NodesAscend(split, t, i, j);
    }
  }
}
