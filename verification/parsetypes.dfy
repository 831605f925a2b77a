/** Syntax-tree nodes and parser tables (regparse_types.rs): the flag
    setters of nodes, string nodes, character-class nodes, back-reference
    nodes, group and anchor nodes, the right-linked list and alternation
    chains, and the table of named groups. Only the node kinds these
    operations touch carry their fields; the others are one opaque case. The whole-set bitset utilities of
    this file are in module Bitset. */
module ParseTypes {
  import opened Wrappers
  import opened Oniguruma
  import opened Regint
  import opened Bits
  import opened Bitset
  import CodeRange

  // ---------------------------------------------------------------------------
  // Flags: u32 words, each flag one bit
  // ---------------------------------------------------------------------------

  const ND_ST_NEST_LEVEL: nat := 13
  const ND_ST_BY_NAME: nat := 15
  const ND_STRING_CRUDE: nat := 0
  const ND_STRING_CASE_EXPANDED: nat := 1
  const ND_BACKREFS_SIZE: nat := 6

  /** `flags |= 1 << bit`. */
  function FlagOn(flags: Word, bit: nat): (r: Word)
    requires bit < WORD_BITS
  {
    Or(flags, Mask(bit))
  }

  /** `flags &= !(1 << bit)`. */
  function FlagOff(flags: Word, bit: nat): (r: Word)
    requires bit < WORD_BITS
  {
    And(flags, Not(Mask(bit)))
  }

  /** `(flags & (1 << bit)) != 0`. */
  predicate FlagSet(flags: Word, bit: nat)
    requires bit < WORD_BITS
  {
    NonZero(And(flags, Mask(bit)))
  }

  /** Setting a flag makes it read as set, clearing makes it read as clear,
      and neither changes how any other flag reads. */
  lemma FlagOpsOwnBitOnly(flags: Word, bit: nat, other: nat)
    requires bit < WORD_BITS && other < WORD_BITS
    ensures FlagSet(FlagOn(flags, bit), other) == (other == bit || FlagSet(flags, other))
    ensures FlagSet(FlagOff(flags, bit), other) == (other != bit && FlagSet(flags, other))
  {
    TestMaskReadsBit(flags, other);
    TestMaskReadsBit(FlagOn(flags, bit), other);
    TestMaskReadsBit(FlagOff(flags, bit), other);
  }

  // ---------------------------------------------------------------------------
  // Nodes
  // ---------------------------------------------------------------------------

  /** A string node: its bytes and its flags (crude, case-expanded). */
  datatype StrNode = StrNode(s: seq<Byte>, flag: Word)

  /** A character class: its flags (NOT, SHARE), the 256-bit set and the
      optional code-range list of its multi-byte part. */
  datatype CClassNode = CClassNode(flags: Word, bs: BitSet, mbuf: Option<seq<CodeRange.Range>>)

  /** A back reference: the count, the inline array of ND_BACKREFS_SIZE slots,
      the heap list used when there are more, and the nesting level. */
  datatype BackRefNode = BackRefNode(backNum: int, backStatic: seq<int>, backDynamic: Option<seq<int>>, nestLevel: int)

  datatype NodeInner =
    | Str(str: StrNode)
    | CClass(cc: CClassNode)
    | BackRef(br: BackRefNode)
    | Quant(qbody: Option<Node>, lower: int, upper: int, greedy: bool)
    | List(car: Node, cdr: Option<Node>)
    | Alt(car: Node, cdr: Option<Node>)
    | Bag(bagBody: Option<Node>, bagData: BagData)
    | Anchor(anchorBody: Option<Node>, anchorType: int)
    | OtherNode(kind: nat)

  /** What a group node is: a capture, an option change, an atomic group,
      or a conditional with its then and else parts. */
  datatype BagData =
    | MemoryBag(regnum: int)
    | OptionBag(options: Options)
    | StopBacktrack
    | IfElse(thenNode: Option<Node>, elseNode: Option<Node>)

  /** A node: its status flags and its kind-specific part. */
  datatype Node = Node(status: Word, inner: NodeInner)

  /** `status_add`. */
  function StatusAdd(n: Node, flag: nat): (r: Node)
    requires flag < WORD_BITS
    ensures r.inner == n.inner
  {
    n.(status := FlagOn(n.status, flag))
  }

  /** `status_remove`. */
  function StatusRemove(n: Node, flag: nat): (r: Node)
    requires flag < WORD_BITS
    ensures r.inner == n.inner
  {
    n.(status := FlagOff(n.status, flag))
  }

  predicate HasStatus(n: Node, flag: nat)
    requires flag < WORD_BITS
  {
    FlagSet(n.status, flag)
  }

  /** A new node has no status bit set (`node_new`). */
  function NodeNew(inner: NodeInner): (n: Node)
    ensures forall flag :: 0 <= flag < WORD_BITS ==> !HasStatus(n, flag)
  {
    var n := Node(Zero(), inner);
    forall flag | 0 <= flag < WORD_BITS ensures !HasStatus(n, flag) {
      TestMaskReadsBit(n.status, flag);
    }
    n
  }

  // String nodes

  predicate IsCrude(sn: StrNode) { FlagSet(sn.flag, ND_STRING_CRUDE) }

  function SetCrude(sn: StrNode): (r: StrNode)
    ensures r.s == sn.s
  {
    sn.(flag := FlagOn(sn.flag, ND_STRING_CRUDE))
  }

  function ClearCrude(sn: StrNode): (r: StrNode)
    ensures r.s == sn.s
  {
    sn.(flag := FlagOff(sn.flag, ND_STRING_CRUDE))
  }

  /** The crude setters change the crude bit and only it. */
  lemma CrudeSettersSpec(sn: StrNode)
    ensures IsCrude(SetCrude(sn)) && !IsCrude(ClearCrude(sn))
    ensures FlagSet(SetCrude(sn).flag, ND_STRING_CASE_EXPANDED) == FlagSet(sn.flag, ND_STRING_CASE_EXPANDED)
    ensures FlagSet(ClearCrude(sn).flag, ND_STRING_CASE_EXPANDED) == FlagSet(sn.flag, ND_STRING_CASE_EXPANDED)
  {
    FlagOpsOwnBitOnly(sn.flag, ND_STRING_CRUDE, ND_STRING_CRUDE);
    FlagOpsOwnBitOnly(sn.flag, ND_STRING_CRUDE, ND_STRING_CASE_EXPANDED);
  }

  // Character-class nodes

  /** The bits of FLAG_NCCLASS_NOT (1) and FLAG_NCCLASS_SHARE (2). */
  const NCCLASS_NOT: nat := 0
  const NCCLASS_SHARE: nat := 1

  predicate IsNot(cc: CClassNode) { FlagSet(cc.flags, NCCLASS_NOT) }

  predicate IsShare(cc: CClassNode) { FlagSet(cc.flags, NCCLASS_SHARE) }

  function SetNot(cc: CClassNode): (r: CClassNode)
    ensures r.bs == cc.bs && r.mbuf == cc.mbuf
  {
    cc.(flags := FlagOn(cc.flags, NCCLASS_NOT))
  }

  function ClearNot(cc: CClassNode): (r: CClassNode)
    ensures r.bs == cc.bs && r.mbuf == cc.mbuf
  {
    cc.(flags := FlagOff(cc.flags, NCCLASS_NOT))
  }

  /** The NOT setters change the NOT bit and leave SHARE alone. */
  lemma NotSettersSpec(cc: CClassNode)
    ensures IsNot(SetNot(cc)) && !IsNot(ClearNot(cc))
    ensures IsShare(SetNot(cc)) == IsShare(cc) && IsShare(ClearNot(cc)) == IsShare(cc)
  {
    FlagOpsOwnBitOnly(cc.flags, NCCLASS_NOT, NCCLASS_NOT);
    FlagOpsOwnBitOnly(cc.flags, NCCLASS_NOT, NCCLASS_SHARE);
  }

  /** Status flags: adding one flag leaves every disjoint flag as it was. */
  lemma StatusSettersSpec(n: Node, flag: nat, other: nat)
    requires flag < WORD_BITS && other < WORD_BITS
    ensures HasStatus(StatusAdd(n, flag), other) == (other == flag || HasStatus(n, other))
    ensures HasStatus(StatusRemove(n, flag), other) == (other != flag && HasStatus(n, other))
  {
    FlagOpsOwnBitOnly(n.status, flag, other);
  }

  // ---------------------------------------------------------------------------
  // node_str_cat
  // ---------------------------------------------------------------------------

  /** Appends bytes to a string node (node_str_cat): NORMAL with the bytes
      appended, or TYPE_BUG and the node unchanged for any other kind. */
  function NodeStrCat(n: Node, s: seq<Byte>): (r: (Node, int))
    ensures r.1 == NORMAL <==> n.inner.Str?
    ensures r.1 != NORMAL ==> r.1 == ERR_TYPE_BUG && r.0 == n
    ensures n.inner.Str? ==> (&& r.0.inner.Str? && r.0.inner.str.s == n.inner.str.s + s
                              && r.0.inner.str.flag == n.inner.str.flag && r.0.status == n.status)
  {
    match n.inner
    case Str(sn) => (n.(inner := Str(sn.(s := sn.s + s))), NORMAL)
    case _ => (n, ERR_TYPE_BUG)
  }

  /** Two appends are one append of the joined bytes. */
  lemma NodeStrCatTwice(n: Node, a: seq<Byte>, b: seq<Byte>)
    ensures NodeStrCat(NodeStrCat(n, a).0, b).0 == NodeStrCat(n, a + b).0
  {
    if n.inner.Str? {
      assert n.inner.str.s + a + b == n.inner.str.s + (a + b);
    }
  }

  // ---------------------------------------------------------------------------
  // Back references
  // ---------------------------------------------------------------------------

  /** Builds a back-reference node (node_new_backref): up to ND_BACKREFS_SIZE
      group numbers go to the inline slots, more go to a heap list; BY_NAME
      and NEST_LEVEL are set from the arguments. */
  function NodeNewBackref(backNum: int, backrefs: seq<int>, byName: bool, nestLevel: int): (n: Node)
    ensures n.inner.BackRef? && n.inner.br.backNum == backNum && n.inner.br.nestLevel == nestLevel
    ensures |n.inner.br.backStatic| == ND_BACKREFS_SIZE
    ensures n.inner.br.backDynamic.Some? <==> |backrefs| > ND_BACKREFS_SIZE
  {
    var backStatic :=
      if |backrefs| <= ND_BACKREFS_SIZE
      then seq(ND_BACKREFS_SIZE, i requires 0 <= i < ND_BACKREFS_SIZE => if i < |backrefs| then backrefs[i] else 0)
      else seq(ND_BACKREFS_SIZE, _ => 0);
    var backDynamic := if |backrefs| <= ND_BACKREFS_SIZE then None else Some(backrefs);
    var n := NodeNew(BackRef(BackRefNode(backNum, backStatic, backDynamic, nestLevel)));
    var n1 := if byName then StatusAdd(n, ND_ST_BY_NAME) else n;
    if nestLevel != 0 then StatusAdd(n1, ND_ST_NEST_LEVEL) else n1
  }

  /** The group numbers of a back reference (`back_refs`): the heap list when
      there is one, else the first `backNum` inline slots (the slice panics
      for a count outside them). */
  function BackRefs(br: BackRefNode): (r: seq<int>)
    requires br.backDynamic.Some? || 0 <= br.backNum <= |br.backStatic|
  {
    match br.backDynamic
    case Some(d) => d
    case None => br.backStatic[..br.backNum]
  }

  /** Built with a count equal to the number of group numbers, a back
      reference gives back exactly those numbers, whichever storage holds
      them; BY_NAME is set iff `byName` and NEST_LEVEL iff the level is not
      zero. */
  lemma NodeNewBackrefSpec(backrefs: seq<int>, byName: bool, nestLevel: int)
    ensures var n := NodeNewBackref(|backrefs|, backrefs, byName, nestLevel);
      && BackRefs(n.inner.br) == backrefs
      && (HasStatus(n, ND_ST_BY_NAME) <==> byName)
      && (HasStatus(n, ND_ST_NEST_LEVEL) <==> nestLevel != 0)
  {
    var n := NodeNewBackref(|backrefs|, backrefs, byName, nestLevel);
    var n0 := NodeNew(n.inner);
    var n1 := if byName then StatusAdd(n0, ND_ST_BY_NAME) else n0;
    assert n == if nestLevel != 0 then StatusAdd(n1, ND_ST_NEST_LEVEL) else n1;
    StatusSettersSpec(n0, ND_ST_BY_NAME, ND_ST_BY_NAME);
    StatusSettersSpec(n0, ND_ST_BY_NAME, ND_ST_NEST_LEVEL);
    StatusSettersSpec(n1, ND_ST_NEST_LEVEL, ND_ST_BY_NAME);
    StatusSettersSpec(n1, ND_ST_NEST_LEVEL, ND_ST_NEST_LEVEL);
    if |backrefs| <= ND_BACKREFS_SIZE {
      assert n.inner.br.backStatic[..|backrefs|] == backrefs;
    }
  }

  // ---------------------------------------------------------------------------
  // List and alternation chains
  // ---------------------------------------------------------------------------

  /** `node` is a right-linked chain of List cells (alt false) or Alt cells
      (alt true) ending in an empty cdr. */
  predicate IsChain(node: Node, alt: bool)
    decreases node
  {
    (if alt then node.inner.Alt? else node.inner.List?)
    && match node.inner.cdr
       case None => true
       case Some(next) => IsChain(next, alt)
  }

  /** The cars of a chain, in order. */
  function Cars(node: Node, alt: bool): (cs: seq<Node>)
    requires IsChain(node, alt)
    ensures |cs| >= 1
    decreases node
  {
    match node.inner.cdr
    case None => [node.inner.car]
    case Some(next) => [node.inner.car] + Cars(next, alt)
  }

  /** A chain cell (`node_new_list` / `node_new_alt`). */
  function Cell(car: Node, cdr: Option<Node>, alt: bool): (n: Node)
  {
    NodeNew(if alt then Alt(car, cdr) else List(car, cdr))
  }

  /** Builds the chain of `nodes` (make_list_n, and make_alt_n when `alt`),
      taking them off the back of the vector; the vector must not be empty. */
  method MakeChainN(nodes: seq<Node>, alt: bool) returns (r: Node)
    requires |nodes| > 0
    ensures IsChain(r, alt) && Cars(r, alt) == nodes
  {
    var i := |nodes| - 1;
    r := Cell(nodes[i], None, alt);
    while i > 0
      invariant 0 <= i < |nodes|
      invariant IsChain(r, alt) && Cars(r, alt) == nodes[i..]
    {
      i := i - 1;
      r := Cell(nodes[i], Some(r), alt);
      assert nodes[i..] == [nodes[i]] + nodes[i + 1..];
    }
  }

  /** make_list_n. */
  method MakeListN(nodes: seq<Node>) returns (r: Node)
    requires |nodes| > 0
    ensures IsChain(r, false) && Cars(r, false) == nodes
  {
    r := MakeChainN(nodes, false);
  }

  /** make_alt_n. */
  method MakeAltN(nodes: seq<Node>) returns (r: Node)
    requires |nodes| > 0
    ensures IsChain(r, true) && Cars(r, true) == nodes
  {
    r := MakeChainN(nodes, true);
  }

  /** Two-element chains (make_list / make_alt). */
  function MakePair(a: Node, b: Node, alt: bool): (r: Node)
    ensures IsChain(r, alt) && Cars(r, alt) == [a, b]
  {
    Cell(a, Some(Cell(b, None, alt)), alt)
  }

  // ---------------------------------------------------------------------------
  // Named groups
  // ---------------------------------------------------------------------------

  /** A name's entry: the name, how many groups carry it and their numbers in
      definition order. */
  datatype NameEntry = NameEntry(name: seq<Byte>, backNum: int, backRefs: seq<int>)

  type NameTable = map<seq<Byte>, NameEntry>

  /** Every entry is filed under its own name and counts its group numbers. */
  predicate NameTableValid(t: NameTable) {
    forall name :: name in t ==> t[name].name == name && t[name].backNum == |t[name].backRefs| >= 1
  }

  /** Records that group `backref` carries `name` (NameTable::add): an empty
      name is EMPTY_GROUP_NAME, a name already in use is
      MULTIPLEX_DEFINED_NAME unless the syntax allows several groups per
      name, otherwise the number is appended to the name's entry. */
  function NameAdd(t: NameTable, name: seq<Byte>, backref: int, allowMultiplex: bool): (r: Result<NameTable>)
    ensures r.Err? ==> r.code == ERR_EMPTY_GROUP_NAME || r.code == ERR_MULTIPLEX_DEFINED_NAME
    ensures r.Ok? ==> r.value.Keys == t.Keys + {name}
    ensures r.Ok? ==> forall other :: other in t && other != name ==> r.value[other] == t[other]
  {
    if |name| == 0 then Err(ERR_EMPTY_GROUP_NAME)
    else if name in t then
      var e := t[name];
      if e.backNum >= 1 && !allowMultiplex then Err(ERR_MULTIPLEX_DEFINED_NAME)
      else Ok(t[name := e.(backNum := e.backNum + 1, backRefs := e.backRefs + [backref])])
    else Ok(t[name := NameEntry(name, 1, [backref])])
  }

  /** The group numbers of a name, in definition order (name_to_group_numbers). */
  function NameToGroupNumbers(t: NameTable, name: seq<Byte>): (r: Option<seq<int>>)
    ensures r.None? <==> name !in t
  {
    if name in t then Some(t[name].backRefs) else None
  }

  /** The number of names (num_entries). */
  function NumEntries(t: NameTable): (n: nat)
  {
    |t.Keys|
  }

  /** Adding keeps the table valid; on success the name's numbers gain
      `backref` at the end, and the result is an error exactly for an empty
      name or a second group of a name without multiplex permission. */
  lemma NameAddSpec(t: NameTable, name: seq<Byte>, backref: int, allowMultiplex: bool)
    requires NameTableValid(t)
    ensures var r := NameAdd(t, name, backref, allowMultiplex);
      && (r.Err? <==> |name| == 0 || (name in t && !allowMultiplex))
      && (r.Ok? ==> NameTableValid(r.value))
      && (r.Ok? ==> NameToGroupNumbers(r.value, name)
                      == Some(NameToGroupNumbers(t, name).GetOr([]) + [backref]))
      && (r.Ok? ==> NumEntries(r.value) == NumEntries(t) + (if name in t then 0 else 1))
  {
    var r := NameAdd(t, name, backref, allowMultiplex);
    if r.Ok? && name !in t {
      assert r.value.Keys == t.Keys + {name};
      assert r.value[name].backRefs == [] + [backref];
    }
    if r.Ok? && name in t {
      assert r.value.Keys == t.Keys;
      assert r.value[name].backRefs == t[name].backRefs + [backref];
    }
  }

  /** Adds one group number after another under the same name. */
  function NameAddAll(t: NameTable, name: seq<Byte>, refs: seq<int>, allowMultiplex: bool): (r: Result<NameTable>)
    decreases |refs|
  {
    if refs == [] then Ok(t)
    else match NameAdd(t, name, refs[0], allowMultiplex)
      case Err(e) => Err(e)
      case Ok(t1) => NameAddAll(t1, name, refs[1..], allowMultiplex)
  }

  /** The numbers recorded for a name, empty when it has none. */
  function NumbersOf(t: NameTable, name: seq<Byte>): seq<int>
  {
    NameToGroupNumbers(t, name).GetOr([])
  }

  /** One successful add with multiplex permission, in terms of NumbersOf. */
  lemma NameAddStep(t: NameTable, name: seq<Byte>, backref: int)
    requires NameTableValid(t) && |name| > 0
    ensures NameAdd(t, name, backref, true).Ok?
    ensures NameTableValid(NameAdd(t, name, backref, true).value)
    ensures NumbersOf(NameAdd(t, name, backref, true).value, name) == NumbersOf(t, name) + [backref]
  {
    NameAddSpec(t, name, backref, true);
  }

  /** With multiplex permission, a non-empty name given several groups in
      turn maps back to its earlier groups followed by exactly those groups,
      in the order they were added. */
  lemma {:induction false} NameAddAllInOrder(t: NameTable, name: seq<Byte>, refs: seq<int>)
    requires NameTableValid(t) && |name| > 0
    ensures NameAddAll(t, name, refs, true).Ok?
    ensures NameTableValid(NameAddAll(t, name, refs, true).value)
    ensures NumbersOf(NameAddAll(t, name, refs, true).value, name) == NumbersOf(t, name) + refs
    decreases |refs|
  {
    if refs != [] {
      NameAddStep(t, name, refs[0]);
      var t1 := NameAdd(t, name, refs[0], true).value;
      assert NameAddAll(t, name, refs, true) == NameAddAll(t1, name, refs[1..], true);
      NameAddAllInOrder(t1, name, refs[1..]);
      assert NumbersOf(t, name) + [refs[0]] + refs[1..] == NumbersOf(t, name) + refs;
    }
  }
}
