/** Where the members of a sample record are: offsets computed once per event, corrected by the sizes
    found in each record, against the layout read from left to right. */
module SampleLayout {

  datatype Bit =
    | IDENTIFIER | IP | TID | TIME | ADDR | ID | STREAM_ID | CPU | PERIOD | READ | CALLCHAIN | RAW | BRANCH_STACK
    | REGS_USER | STACK_USER | WEIGHT | WEIGHT_STRUCT | DATA_SRC | TRANSACTION | REGS_INTR | PHYS_ADDR | AUX | CGROUP
    | DATA_PAGE_SIZE | CODE_PAGE_SIZE

  const FIELDS: nat := 25

  /** The order of the fields in a record. */
  function Nth(k: nat): Bit {
    match k
    case 0 => IDENTIFIER case 1 => IP case 2 => TID case 3 => TIME case 4 => ADDR case 5 => ID case 6 => STREAM_ID
    case 7 => CPU case 8 => PERIOD case 9 => READ case 10 => CALLCHAIN case 11 => RAW case 12 => BRANCH_STACK
    case 13 => REGS_USER case 14 => STACK_USER case 15 => WEIGHT case 16 => WEIGHT_STRUCT case 17 => DATA_SRC
    case 18 => TRANSACTION case 19 => REGS_INTR case 20 => PHYS_ADDR case 21 => AUX case 22 => CGROUP
    case 23 => DATA_PAGE_SIZE case _ => CODE_PAGE_SIZE
  }

  function Index(b: Bit): (k: nat)
    ensures k < FIELDS && Nth(k) == b
  {
    match b
    case IDENTIFIER => 0 case IP => 1 case TID => 2 case TIME => 3 case ADDR => 4 case ID => 5 case STREAM_ID => 6
    case CPU => 7 case PERIOD => 8 case READ => 9 case CALLCHAIN => 10 case RAW => 11 case BRANCH_STACK => 12
    case REGS_USER => 13 case STACK_USER => 14 case WEIGHT => 15 case WEIGHT_STRUCT => 16 case DATA_SRC => 17
    case TRANSACTION => 18 case REGS_INTR => 19 case PHYS_ADDR => 20 case AUX => 21 case CGROUP => 22
    case DATA_PAGE_SIZE => 23 case CODE_PAGE_SIZE => 24
  }

  /** What `perf_event_attr` fixes: the sample type, the size of the read values and the numbers of
      sampled registers. */
  datatype Config = Config(st: set<Bit>, readSize: nat, userRegs: nat, intrRegs: nat)

  /** A record: the 64-bit and 32-bit words at each offset of its data. */
  datatype Record = Record(u64: int -> nat, u32: int -> nat)

  /** WEIGHT and WEIGHT_STRUCT share one field. */
  predicate Present(cfg: Config, b: Bit) { b in cfg.st && !(b == WEIGHT_STRUCT && WEIGHT in cfg.st) }

  predicate Variable(b: Bit) { b in {CALLCHAIN, RAW, BRANCH_STACK, REGS_USER, STACK_USER, REGS_INTR, AUX} }

  // ----- the layout of perf_event_open(2), read from left to right -----

  /** The bytes a field takes at position `at` of a record. */
  function FieldSize(cfg: Config, rec: Record, b: Bit, at: int): nat {
    match b
    case READ => cfg.readSize
    case CALLCHAIN => 8 + 8 * rec.u64(at)
    case RAW => 4 + rec.u32(at)
    case BRANCH_STACK => 8 + 24 * rec.u64(at)
    case REGS_USER => if rec.u64(at) != 0 then 8 + 8 * cfg.userRegs else 8
    case STACK_USER => if rec.u64(at) != 0 then 8 + rec.u64(at) + 8 else 8
    case REGS_INTR => if rec.u64(at) != 0 then 8 + 8 * cfg.intrRegs else 8
    case AUX => 8 + rec.u64(at)
    case _ => 8
  }

  /** Where field `k` starts. */
  function Walk(cfg: Config, rec: Record, k: nat): nat {
    if k == 0 then 0
    else
      var at := Walk(cfg, rec, k - 1);
      at + if Present(cfg, Nth(k - 1)) then FieldSize(cfg, rec, Nth(k - 1), at) else 0
  }

  // ----- the members of an event -----

  /** `deps` are the variable-size fields before the member. */
  datatype Member = Member(bit: Bit, part: nat, offset: int, size: int, deps: set<Bit>)

  /** What a field adds to the running offset: variable-size fields count nothing. */
  function FixedSize(cfg: Config, b: Bit): nat { if Variable(b) then 0 else if b == READ then cfg.readSize else 8 }

  function Base(cfg: Config, k: nat): nat {
    if k == 0 then 0 else Base(cfg, k - 1) + if Present(cfg, Nth(k - 1)) then FixedSize(cfg, Nth(k - 1)) else 0
  }

  function Deps(cfg: Config, k: nat): set<Bit> {
    set b | b in cfg.st && Present(cfg, b) && FixedSize(cfg, b) == 0 && Index(b) < k
  }

  /** The members a field contributes: process and thread id are two. */
  function Parts(cfg: Config, k: nat): seq<Member> {
    var b := Nth(k);
    if !Present(cfg, b) then []
    else if b == TID then [Member(b, 0, Base(cfg, k), 4, Deps(cfg, k)), Member(b, 1, Base(cfg, k) + 4, 4, Deps(cfg, k))]
    else if b == CPU then [Member(b, 0, Base(cfg, k), 4, Deps(cfg, k))]
    else if b == REGS_USER then [Member(b, 0, Base(cfg, k), RegsSize(cfg.userRegs), Deps(cfg, k))]
    else if b == REGS_INTR then [Member(b, 0, Base(cfg, k), RegsSize(cfg.intrRegs), Deps(cfg, k))]
    else [Member(b, 0, Base(cfg, k), FixedSize(cfg, b), Deps(cfg, k))]
  }

  function Members(cfg: Config, k: nat): seq<Member> { if k == 0 then [] else Members(cfg, k - 1) + Parts(cfg, k - 1) }

  /** The count taken first: one for each bit, two for TID, one for either kind of weight. */
  function Counted(cfg: Config, k: nat): nat {
    if k == 0 then 0
    else
      Counted(cfg, k - 1) +
      match Nth(k - 1)
      case TID => if TID in cfg.st then 2 else 0
      case WEIGHT_STRUCT => if WEIGHT in cfg.st then 0 else if WEIGHT_STRUCT in cfg.st then 1 else 0
      case b => if b in cfg.st then 1 else 0
  }

  /** As many members are filled in as were counted. */
  lemma {:induction false} CountMatches(cfg: Config, k: nat)
    ensures |Members(cfg, k)| == Counted(cfg, k)
  {
    hide Base; hide Deps; hide Nth; hide FixedSize;
    if k > 0 { CountMatches(cfg, k - 1); }
  }

  // ----- the offset of a member in a record -----

  /** The variable-size fields, in order. */
  function Varying(j: nat): Bit {
    match j
    case 0 => CALLCHAIN case 1 => RAW case 2 => BRANCH_STACK case 3 => REGS_USER
    case 4 => STACK_USER case 5 => REGS_INTR case _ => AUX
  }

  /** The bytes `perf_event_member_offset` counts for a variable-size field whose header is at `at`. */
  function DepSize(cfg: Config, rec: Record, b: Bit, at: int): int {
    if b == CALLCHAIN then var nr := rec.u64(at); 8 + nr * 8
    else if b == RAW then var size := rec.u32(at); 4 + size
    else if b == BRANCH_STACK then var nr := rec.u64(at); 8 + nr * 24
    else if b == REGS_USER then var abi := rec.u64(at); if abi != 0 then RegsSize(cfg.userRegs) else 8
    else if b == STACK_USER then var size := rec.u64(at); 8 + if size != 0 then size + 8 else 0
    else if b == REGS_INTR then var abi := rec.u64(at); if abi != 0 then RegsSize(cfg.intrRegs) else 8
    else var size := rec.u64(at); 8 + size
  }

  /** The size of a member that holds registers. */
  function RegsSize(n: nat): nat { 8 + n * 8 }

  /** It is the size of the field in the record. */
  lemma DepIsField(cfg: Config, rec: Record, b: Bit, at: int)
    requires Variable(b)
    ensures DepSize(cfg, rec, b, at) == FieldSize(cfg, rec, b, at)
  {}

  /** The sizes of the first `j` of them that are in `deps`, each read where the ones before it put it. */
  function DepsSize(cfg: Config, rec: Record, deps: set<Bit>, j: nat): int {
    if j == 0 then 0
    else
      var size := DepsSize(cfg, rec, deps, j - 1);
      var b := Varying(j - 1);
      if b in deps then size + DepSize(cfg, rec, b, Base(cfg, Index(b)) + size) else size
  }

  /** `perf_event_member_offset`. */
  function MemberOffset(cfg: Config, rec: Record, m: Member): int {
    if m.deps == {} then m.offset else m.offset + DepsSize(cfg, rec, m.deps, 7)
  }

  lemma {:induction false} NoDeps(cfg: Config, rec: Record, j: nat)
    ensures DepsSize(cfg, rec, {}, j) == 0
  {
    if j > 0 { NoDeps(cfg, rec, j - 1); }
  }

  lemma InDeps(cfg: Config, k: nat, b: Bit)
    ensures b in Deps(cfg, k) <==> Present(cfg, b) && FixedSize(cfg, b) == 0 && Index(b) < k
  {}

  lemma VaryingOrder(i: nat, j: nat)
    requires i < j <= 6
    ensures Index(Varying(i)) < Index(Varying(j))
  {}

  /** The sizes depend only on which of those fields are there. */
  lemma {:induction false} SameDeps(cfg: Config, rec: Record, d: set<Bit>, d': set<Bit>, j: nat)
    requires forall i: nat :: i < j ==> (Varying(i) in d <==> Varying(i) in d')
    ensures DepsSize(cfg, rec, d, j) == DepsSize(cfg, rec, d', j)
  {
    hide DepSize; hide Base; hide Varying;
    if j > 0 { SameDeps(cfg, rec, d, d', j - 1); }
  }

  lemma {:induction false} NoneFrom(cfg: Config, rec: Record, d: set<Bit>, j: nat, n: nat)
    requires j <= n && forall i: nat :: j <= i < n ==> Varying(i) !in d
    ensures DepsSize(cfg, rec, d, n) == DepsSize(cfg, rec, d, j)
  {
    hide DepSize; hide Base; hide Varying;
    if j < n { NoneFrom(cfg, rec, d, j, n - 1); }
  }

  /** A field that varies is the one more. */
  lemma OneVarying(cfg: Config, rec: Record, j: nat)
    requires j <= 6 && Present(cfg, Varying(j))
    ensures var k := Index(Varying(j));
            var size := DepsSize(cfg, rec, Deps(cfg, k), 7);
            DepsSize(cfg, rec, Deps(cfg, k + 1), 7) == size + FieldSize(cfg, rec, Varying(j), Base(cfg, k) + size)
  {
    hide FieldSize; hide DepSize; hide Base; hide Deps;
    var k := Index(Varying(j));
    DepIsField(cfg, rec, Varying(j), Base(cfg, k) + DepsSize(cfg, rec, Deps(cfg, k), 7));
    var d, d' := Deps(cfg, k), Deps(cfg, k + 1);
    forall i: nat | i < j ensures Varying(i) in d <==> Varying(i) in d' {
      InDeps(cfg, k, Varying(i)); InDeps(cfg, k + 1, Varying(i)); VaryingOrder(i, j);
    }
    forall i: nat | j <= i < 7 ensures Varying(i) !in d {
      InDeps(cfg, k, Varying(i)); if j < i { VaryingOrder(j, i); }
    }
    forall i: nat | j + 1 <= i < 7 ensures Varying(i) !in d' { InDeps(cfg, k + 1, Varying(i)); VaryingOrder(j, i); }
    InDeps(cfg, k + 1, Varying(j));
    SameDeps(cfg, rec, d, d', j);
    NoneFrom(cfg, rec, d, j, 7);
    NoneFrom(cfg, rec, d', j + 1, 7);
  }

  /** A field of fixed size, or one that is not there, changes nothing. */
  lemma OneFixed(cfg: Config, rec: Record, k: nat)
    requires k < FIELDS && !(Present(cfg, Nth(k)) && Variable(Nth(k)))
    ensures DepsSize(cfg, rec, Deps(cfg, k + 1), 7) == DepsSize(cfg, rec, Deps(cfg, k), 7)
  {
    hide DepSize; hide Base; hide Deps;
    forall i: nat | i < 7 ensures Varying(i) in Deps(cfg, k) <==> Varying(i) in Deps(cfg, k + 1) {
      InDeps(cfg, k, Varying(i)); InDeps(cfg, k + 1, Varying(i));
    }
    SameDeps(cfg, rec, Deps(cfg, k), Deps(cfg, k + 1), 7);
  }

  lemma WhichVarying(b: Bit) returns (j: nat)
    requires Variable(b)
    ensures j <= 6 && Varying(j) == b
  {
    j := if b == CALLCHAIN then 0 else if b == RAW then 1 else if b == BRANCH_STACK then 2
         else if b == REGS_USER then 3 else if b == STACK_USER then 4 else if b == REGS_INTR then 5 else 6;
  }

  /** Up to field `k`, the fixed part and the sizes found in the record add up to the walk. */
  lemma {:induction false} WalkSplits(cfg: Config, rec: Record, k: nat)
    requires k <= FIELDS
    ensures Walk(cfg, rec, k) == Base(cfg, k) + DepsSize(cfg, rec, Deps(cfg, k), 7)
  {
    if k == 0 {
      assert Deps(cfg, 0) == {};
      NoDeps(cfg, rec, 7);
    } else {
      WalkSplits(cfg, rec, k - 1);
      OneField(cfg, rec, k - 1, Walk(cfg, rec, k - 1));
    }
  }

  /** What one field adds to the walk, it adds to the fixed part or to the sizes found. */
  lemma OneField(cfg: Config, rec: Record, k: nat, at: nat)
    requires k < FIELDS && at == Base(cfg, k) + DepsSize(cfg, rec, Deps(cfg, k), 7)
    ensures at + (if Present(cfg, Nth(k)) then FieldSize(cfg, rec, Nth(k), at)
                  else 0) == Base(cfg, k + 1) + DepsSize(cfg, rec, Deps(cfg, k + 1), 7)
  {
    hide Deps; hide DepsSize; hide Nth; hide FieldSize; hide Index; hide Variable;
    var b := Nth(k);
    IndexNth(k);
    if Present(cfg, b) && Variable(b) {
      var j := WhichVarying(b);
      OneVarying(cfg, rec, j);
    } else {
      OneFixed(cfg, rec, k);
      if Present(cfg, b) { FixedField(cfg, rec, b, at); }
    }
  }

  lemma IndexNth(k: nat)
    requires k < FIELDS
    ensures Index(Nth(k)) == k
  {}

  lemma FixedField(cfg: Config, rec: Record, b: Bit, at: int)
    requires !Variable(b)
    ensures FieldSize(cfg, rec, b, at) == FixedSize(cfg, b)
  {}

  /** For every sample type and every record, the offset computed for a member is where the walk from
      left to right finds it. */
  lemma OffsetIsWalk(cfg: Config, rec: Record, k: nat, m: Member)
    requires k < FIELDS && m in Parts(cfg, k)
    ensures MemberOffset(cfg, rec, m) == Walk(cfg, rec, k) + (if m.part == 1 then 4 else 0)
  {
    hide Walk; hide DepsSize; hide Deps;
    WalkSplits(cfg, rec, k);
    NoDeps(cfg, rec, 7);
  }

  /** The position of field `b` when the sizes found so far are `size`. */
  function PosOf(cfg: Config, b: Bit, size: int): int { Base(cfg, Index(b)) + size }

  lemma DepsStep(cfg: Config, rec: Record, deps: set<Bit>, j: nat, b: Bit)
    requires Varying(j) == b
    ensures DepsSize(cfg, rec, deps, j + 1) ==
            var size := DepsSize(cfg, rec, deps, j);
            if b in deps then size + DepSize(cfg, rec, b, PosOf(cfg, b, size)) else size
  {
    hide Base; hide DepSize;
  }

  /** The first three variable-size fields. */
  method FirstSizes(cfg: Config, rec: Record, deps: set<Bit>) returns (size: int)
    ensures size == DepsSize(cfg, rec, deps, 3)
  {
    hide DepsSize; hide PosOf;
    size := 0;
    DepsNone(cfg, rec, deps);
    DepsStep(cfg, rec, deps, 0, CALLCHAIN);
    if CALLCHAIN in deps {
      var nr := rec.u64(PosOf(cfg, CALLCHAIN, size));
      size := size + (8 + nr * 8);
    }
    DepsStep(cfg, rec, deps, 1, RAW);
    if RAW in deps {
      var n := rec.u32(PosOf(cfg, RAW, size));
      size := size + (4 + n);
    }
    DepsStep(cfg, rec, deps, 2, BRANCH_STACK);
    if BRANCH_STACK in deps {
      var nr := rec.u64(PosOf(cfg, BRANCH_STACK, size));
      size := size + (8 + nr * 24);
    }
  }

  /** The other four. */
  method LastSizes(cfg: Config, rec: Record, deps: set<Bit>, first: int) returns (size: int)
    requires first == DepsSize(cfg, rec, deps, 3)
    ensures size == DepsSize(cfg, rec, deps, 7)
  {
    hide DepsSize; hide PosOf;
    size := first;
    DepsStep(cfg, rec, deps, 3, REGS_USER);
    if REGS_USER in deps {
      var abi := rec.u64(PosOf(cfg, REGS_USER, size));
      size := size + if abi != 0 then RegsSize(cfg.userRegs) else 8;
    }
    DepsStep(cfg, rec, deps, 4, STACK_USER);
    if STACK_USER in deps {
      var n := rec.u64(PosOf(cfg, STACK_USER, size));
      size := size + (8 + if n != 0 then n + 8 else 0);
    }
    DepsStep(cfg, rec, deps, 5, REGS_INTR);
    if REGS_INTR in deps {
      var abi := rec.u64(PosOf(cfg, REGS_INTR, size));
      size := size + if abi != 0 then RegsSize(cfg.intrRegs) else 8;
    }
    DepsStep(cfg, rec, deps, 6, AUX);
    if AUX in deps {
      var n := rec.u64(PosOf(cfg, AUX, size));
      size := size + (8 + n);
    }
  }

  /** `perf_event_member_offset`, one variable-size field after another: the result is where the field lies in
      the record. */
  method OffsetInRecord(cfg: Config, rec: Record, k: nat, m: Member) returns (offset: int)
    requires k < FIELDS && m in Parts(cfg, k)
    ensures offset == Walk(cfg, rec, k) + if m.part == 1 then 4 else 0
  {
    hide Walk; hide DepsSize; hide Parts;
    OffsetIsWalk(cfg, rec, k, m);
    if m.deps == {} { return m.offset; }
    var size := FirstSizes(cfg, rec, m.deps);
    size := LastSizes(cfg, rec, m.deps, size);
    offset := m.offset + size;
  }

  // ----- building the members -----

  lemma DepsNext(cfg: Config, k: nat)
    requires k < FIELDS
    ensures Deps(cfg, k + 1) == Deps(cfg, k) + (if Present(cfg, Nth(k)) && FixedSize(cfg, Nth(k)) == 0 then {Nth(k)}
                                                else {})
  {
    hide FixedSize;
    IndexNth(k);
    forall b: Bit
      ensures b in Deps(cfg, k + 1) <==> b in Deps(cfg, k) || (b == Nth(k) && Present(cfg, b) && FixedSize(cfg, b) == 0)
    {
      hide Index;
      if Index(b) == k { assert Nth(Index(b)) == b; }
    }
  }

  method CountMembers(cfg: Config) returns (n: nat)
    ensures n == Counted(cfg, FIELDS)
  {
    hide Nth;
    n := 0;
    for k := 0 to FIELDS
      invariant n == Counted(cfg, k)
    {
      var b := Nth(k);
      if b == TID { if b in cfg.st { n := n + 2; } }
      else if b == WEIGHT_STRUCT { if WEIGHT !in cfg.st && b in cfg.st { n := n + 1; } }
      else if b in cfg.st { n := n + 1; }
    }
  }

  /** `perf_event_members`: counting first, then filling one member after another. */
  method BuildMembers(cfg: Config) returns (members: array<Member>)
    ensures members[..] == Members(cfg, FIELDS)
  {
    hide Nth; hide Present; hide FixedSize;
    var n := CountMembers(cfg);
    CountMatches(cfg, FIELDS);
    members := new Member[n](_ => Member(IP, 0, 0, 0, {}));
    var i, offset, deps := 0, 0, {};
    assert Deps(cfg, 0) == {};
    for k := 0 to FIELDS
      invariant i == |Members(cfg, k)| <= n && members[..i] == Members(cfg, k)
      invariant offset == Base(cfg, k) && deps == Deps(cfg, k) && n == |Members(cfg, FIELDS)| && members.Length == n
    {
      MembersGrow(cfg, k + 1, FIELDS);
      DepsNext(cfg, k);
      i := AddMembers(cfg, k, members, i, offset, deps);
      if Present(cfg, Nth(k)) {
        if FixedSize(cfg, Nth(k)) == 0 { deps := deps + {Nth(k)}; }
        offset := offset + FixedSize(cfg, Nth(k));
      }
    }
  }

  lemma {:induction false} MembersGrow(cfg: Config, k: nat, n: nat)
    requires k <= n
    ensures |Members(cfg, k)| <= |Members(cfg, n)|
  {
    if k < n { MembersGrow(cfg, k, n - 1); }
  }

  /** `ADD_MEMBER` for the members of one field. */
  method AddMembers(cfg: Config, k: nat, members: array<Member>, i: nat, offset: int, deps: set<Bit>) returns (i': nat)
    requires k < FIELDS && i + |Parts(cfg, k)| <= members.Length && offset == Base(cfg, k) && deps == Deps(cfg, k)
    modifies members
    ensures i' == i + |Parts(cfg, k)| && members[..i'] == old(members[..i]) + Parts(cfg, k)
  {
    hide Nth; hide Base; hide Deps;
    var b := Nth(k);
    i' := i;
    if Present(cfg, b) {
      var size := if b == TID || b == CPU then 4 else if b == REGS_USER then RegsSize(cfg.userRegs)
                                                      else if b == REGS_INTR then RegsSize(cfg.intrRegs)
                                                           else FixedSize(cfg, b);
      members[i] := Member(b, 0, offset, size, deps);
      i' := i + 1;
      assert members[..i] == old(members[..i]) && members[..i + 1] == members[..i] + [members[i]];
      if b == TID {
        members[i + 1] := Member(b, 1, offset + 4, size, deps);
        i' := i + 2;
        assert members[..i + 2] == members[..i] + [members[i]] + [members[i + 1]];
      }
    }
  }

  // ----- the positions of the common fields -----

  datatype Positions = Positions(tid: int, time: int, id: int, cpu: int, callchain: int)

  function Eight(cfg: Config, b: Bit): nat { if b in cfg.st then 8 else 0 }

  lemma FirstBases(cfg: Config)
    ensures Base(cfg, 2) == Eight(cfg, IDENTIFIER) + Eight(cfg, IP)
    ensures Base(cfg, 3) == Base(cfg, 2) + Eight(cfg, TID)
    ensures Base(cfg, 5) == Base(cfg, 3) + Eight(cfg, TIME) + Eight(cfg, ADDR)
    ensures Base(cfg, 7) == Base(cfg, 5) + Eight(cfg, ID) + Eight(cfg, STREAM_ID)
    ensures Base(cfg, 10) == Base(cfg, 7) + Eight(cfg, CPU) + Eight(cfg, PERIOD) + if READ in cfg.st then cfg.readSize
                                                                                   else 0
  {
    assert Base(cfg, 1) == Eight(cfg, IDENTIFIER);
    assert Base(cfg, 4) == Base(cfg, 3) + Eight(cfg, TIME);
    assert Base(cfg, 6) == Base(cfg, 5) + Eight(cfg, ID);
    assert Base(cfg, 8) == Base(cfg, 7) + Eight(cfg, CPU);
    assert Base(cfg, 9) == Base(cfg, 8) + Eight(cfg, PERIOD);
  }

  /** The positions up to the sample id, and where the next field starts. */
  method FirstPositions(cfg: Config) returns (p: Positions, pos: int)
    ensures p.tid == (if TID in cfg.st then Base(cfg, 2) else -1) && p.time == (if TIME in cfg.st then Base(cfg, 3)
                                                                                else -1)
    ensures p.id == -1 && p.cpu == -1 && p.callchain == -1 && pos == Base(cfg, 5)
  {
    FirstBases(cfg);
    hide Base;
    pos := 0;
    p := Positions(-1, -1, -1, -1, -1);
    if IDENTIFIER in cfg.st { pos := pos + 8; }
    if IP in cfg.st { pos := pos + 8; }
    if TID in cfg.st {
      p := p.(tid := pos);
      pos := pos + 4 + 4;
    }
    if TIME in cfg.st {
      p := p.(time := pos);
      pos := pos + 8;
    }
    if ADDR in cfg.st { pos := pos + 8; }
  }

  /** `perf_sample_pos_init` without a fix-up hook; `single` when one event samples. */
  method InitPositions(cfg: Config, single: bool) returns (p: Positions)
    ensures p.tid == if TID in cfg.st then Base(cfg, 2) else -1
    ensures p.time == if TIME in cfg.st then Base(cfg, 3) else -1
    ensures p.id == if ID in cfg.st then Base(cfg, 5) else -1
    ensures p.cpu == if CPU in cfg.st then Base(cfg, 7) else -1
    ensures p.callchain == if READ in cfg.st && !single then -1 else Base(cfg, 10)
  {
    FirstBases(cfg);
    hide Base;
    var pos;
    p, pos := FirstPositions(cfg);
    if ID in cfg.st {
      p := p.(id := pos);
      pos := pos + 8;
    }
    if STREAM_ID in cfg.st { pos := pos + 8; }
    if CPU in cfg.st {
      p := p.(cpu := pos);
      pos := pos + 4 + 4;
    }
    if PERIOD in cfg.st { pos := pos + 8; }
    if READ in cfg.st {
      if single {
        pos := pos + cfg.readSize;
        p := p.(callchain := pos);
      }
    } else {
      p := p.(callchain := pos);
    }
  }

  /** Up to the call chain no field varies, so the positions hold in every record. */
  lemma PositionsAgree(cfg: Config, rec: Record, k: nat)
    requires k <= 10
    ensures Base(cfg, k) == Walk(cfg, rec, k)
  {
    WalkSplits(cfg, rec, k);
    hide Base; hide Walk; hide Deps; hide DepsSize;
    forall i: nat | i < 7 ensures Varying(i) !in Deps(cfg, k) {
      InDeps(cfg, k, Varying(i));
      if i > 0 { VaryingOrder(0, i); }
    }
    NoneFrom(cfg, rec, Deps(cfg, k), 0, 7);
    DepsNone(cfg, rec, Deps(cfg, k));
  }

  lemma DepsNone(cfg: Config, rec: Record, d: set<Bit>)
    ensures DepsSize(cfg, rec, d, 0) == 0
  {}
}
