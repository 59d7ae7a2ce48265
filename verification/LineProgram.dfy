/** Line-number programs of section 6.2.5 of DWARF 5: the standard's state machine, the encoding of its instructions,
    and `parse_line_table`, which runs a program straight from its bytes. */
module LineProgram {
  import opened Bits
  import opened Memory
  import opened Leb128
  import opened ByteReader
  import opened LineLookup

  const FILE_LIMIT: nat := 0x1_0000_0000
  const LINE_LIMIT: nat := 0x8000_0000

  /** What the header of a line-number unit tells the program. */
  datatype Header = Header(addressSize: Byte, minimumLength: Byte, maximumOperations: Byte, defaultIsStmt: bool,
                           lineBase: int, lineRange: Byte, opcodeBase: Byte, lengths: seq<Byte>, files: seq<string>)

  predicate HeaderOk(h: Header) {
    h.maximumOperations > 0 && h.lineRange > 0 && h.opcodeBase > 0 && |h.lengths| == h.opcodeBase - 1
  }

  // ---------------------------------------------------------------- the state machine of the standard

  datatype Registers = Registers(address: nat, opIndex: nat, file: nat, line: int, column: nat, isStmt: bool,
                                 basicBlock: bool, endSequence: bool, prologueEnd: bool, epilogueBegin: bool, isa: nat)

  datatype Instr =
    | Special(adjusted: nat) | Copy | AdvancePc(advance: nat) | AdvanceLine(delta: int) | SetFile(file: nat)
    | SetColumn(column: nat) | NegateStmt | SetBasicBlock | ConstAddPc | FixedAdvancePc(advance: nat)
    | SetPrologueEnd | SetEpilogueBegin | SetIsa(isa: nat) | OtherStandard(opcode: Byte, operands: seq<nat>)
    | EndSequence | SetAddress(address: nat) | OtherExtended(opcode: Byte, payload: seq<Byte>)

  function Initial(h: Header): Registers {
    Registers(0, 0, 1, 1, 0, h.defaultIsStmt, false, false, false, false, 0)
  }

  /** The registers after an operation advance. */
  function Advanced(h: Header, r: Registers, n: nat): Registers
    requires HeaderOk(h)
  {
    var moved: nat := (r.opIndex + n) / h.maximumOperations;
    var bytes: nat := h.minimumLength * moved;
    r.(address := r.address + bytes, opIndex := (r.opIndex + n) % h.maximumOperations)
  }

  function Moved(h: Header, r: Registers, adjusted: nat): Registers
    requires HeaderOk(h)
  {
    Advanced(h, r, adjusted / h.lineRange).(line := r.line + h.lineBase + adjusted % h.lineRange)
  }

  function Appended(r: Registers): Registers {
    r.(basicBlock := false, prologueEnd := false, epilogueBegin := false)
  }

  /** The operation advance of the special opcode 255. */
  function LongestAdvance(h: Header): nat
    requires HeaderOk(h)
  {
    (255 - h.opcodeBase) / h.lineRange
  }

  /** The registers after an instruction. */
  function After(h: Header, i: Instr, r: Registers): Registers
    requires HeaderOk(h)
  {
    match i
    case Special(adjusted) => Appended(Moved(h, r, adjusted))
    case Copy => Appended(r)
    case AdvancePc(n) => Advanced(h, r, n)
    case AdvanceLine(delta) => r.(line := r.line + delta)
    case SetFile(file) => r.(file := file)
    case SetColumn(column) => r.(column := column)
    case NegateStmt => r.(isStmt := !r.isStmt)
    case SetBasicBlock => r.(basicBlock := true)
    case ConstAddPc => Advanced(h, r, LongestAdvance(h))
    case FixedAdvancePc(n) => r.(address := r.address + n, opIndex := 0)
    case SetPrologueEnd => r.(prologueEnd := true)
    case SetEpilogueBegin => r.(epilogueBegin := true)
    case SetIsa(isa) => r.(isa := isa)
    case EndSequence => Initial(h)
    case SetAddress(a) => r.(address := a, opIndex := 0)
    case OtherStandard(_, _) => r
    case OtherExtended(_, _) => r
  }

  /** The rows an instruction appends to the matrix. */
  function RowsOf(h: Header, i: Instr, r: Registers): seq<Registers>
    requires HeaderOk(h)
  {
    match i
    case Special(adjusted) => [Moved(h, r, adjusted)]
    case Copy => [r]
    case EndSequence => [r.(endSequence := true)]
    case _ => []
  }

  /** The matrix that a program builds from the registers `r`. */
  function Run(h: Header, p: seq<Instr>, r: Registers): seq<Registers>
    requires HeaderOk(h)
  {
    if p == [] then [] else RowsOf(h, p[0], r) + Run(h, p[1..], After(h, p[0], r))
  }

  /** Throughout the run the line number fits its register, and every row names a file of the header. */
  predicate RunOk(h: Header, p: seq<Instr>, r: Registers)
    requires HeaderOk(h)
  {
    p != [] ==> StepOk(h, p[0], r) && RunOk(h, p[1..], After(h, p[0], r))
  }

  predicate AllNamed(h: Header, rs: seq<Registers>) {
    forall r <- rs :: r.file < |h.files|
  }

  predicate StepOk(h: Header, i: Instr, r: Registers)
    requires HeaderOk(h)
  {
    && 0 <= After(h, i, r).line + LINE_LIMIT && After(h, i, r).line < LINE_LIMIT
    && AllNamed(h, RowsOf(h, i, r))
  }

  // ---------------------------------------------------------------- what the standard says of the instructions

  /** `q` is `a / b` rounded down. */
  predicate IsQuotient(q: nat, a: nat, b: nat) { b * q <= a < b * q + b }

  lemma QuotientIs(a: nat, b: nat)
    requires b > 0
    ensures IsQuotient(a / b, a, b) && a % b == a - b * (a / b)
  {}

  /** Section 6.2.5.1: an operation advance counts operations, `maximumOperations` to an instruction, and the address
      moves by whole instructions. A special opcode advances by the quotient of its adjusted opcode and moves the line
      by the remainder; `DW_LNS_const_add_pc` advances as the opcode 255 does. */
  lemma AdvanceIs(h: Header, i: Instr, r: Registers) returns (n: nat, moved: nat)
    requires HeaderOk(h) && (i.Special? || i.AdvancePc? || i.ConstAddPc?)
    ensures i.AdvancePc? ==> n == i.advance
    ensures i.Special? ==> IsQuotient(n, i.adjusted, h.lineRange)
    ensures i.ConstAddPc? ==> IsQuotient(n, 255 - h.opcodeBase, h.lineRange)
    ensures var q := After(h, i, r);
      && q.opIndex < h.maximumOperations && h.maximumOperations * moved + q.opIndex == r.opIndex + n
      && q.address == r.address + h.minimumLength * moved && q.file == r.file
      && q.line == if i.Special? then r.line + h.lineBase + (i.adjusted - h.lineRange * n) else r.line
  {
    hide After;
    hide Advanced;
    hide IsQuotient;
    n := AdvanceOf(h, i);
    moved := AdvancedLaw(h, r, n);
    AfterAdvance(h, i, r);
    QuotientIs(255 - h.opcodeBase, h.lineRange);
    if i.Special? { QuotientIs(i.adjusted, h.lineRange); }
  }

  /** The operation advance of an instruction that has one. */
  function AdvanceOf(h: Header, i: Instr): nat
    requires HeaderOk(h) && (i.Special? || i.AdvancePc? || i.ConstAddPc?)
  {
    if i.AdvancePc? then i.advance else Quotient(if i.Special? then i.adjusted else 255 - h.opcodeBase, h.lineRange)
  }

  function Quotient(a: nat, b: nat): nat
    requires b > 0
  {
    a / b
  }

  lemma AfterAdvance(h: Header, i: Instr, r: Registers)
    requires HeaderOk(h) && (i.Special? || i.AdvancePc? || i.ConstAddPc?)
    ensures var q, a := After(h, i, r), Advanced(h, r, AdvanceOf(h, i));
      && q.address == a.address && q.opIndex == a.opIndex && q.file == a.file
      && q.line == if i.Special? then r.line + h.lineBase + i.adjusted % h.lineRange else a.line
  {
    hide Advanced;
  }

  lemma AdvancedLaw(h: Header, r: Registers, n: nat) returns (moved: nat)
    requires HeaderOk(h)
    ensures var q := Advanced(h, r, n);
      && q == r.(address := r.address + h.minimumLength * moved, opIndex := q.opIndex)
      && q.opIndex < h.maximumOperations && h.maximumOperations * moved + q.opIndex == r.opIndex + n
  {
    moved := (r.opIndex + n) / h.maximumOperations;
    QuotientIs(r.opIndex + n, h.maximumOperations);
  }

  /** `DW_LNS_const_add_pc` moves address and operation index as the special opcode 255 would, and nothing else. */
  lemma ConstAddPcIs(h: Header, r: Registers)
    requires HeaderOk(h)
    ensures var q := After(h, Special(255 - h.opcodeBase), r);
      After(h, ConstAddPc, r) == r.(address := q.address, opIndex := q.opIndex)
    ensures var q := Moved(h, r, 255 - h.opcodeBase);
      After(h, ConstAddPc, r) == r.(address := q.address, opIndex := q.opIndex)
  {
    hide Advanced;
    AdvancedOnly(h, r, (255 - h.opcodeBase) / h.lineRange);
  }

  /** An operation advance changes no other register. */
  lemma AdvancedOnly(h: Header, r: Registers, n: nat)
    requires HeaderOk(h)
    ensures var q := Advanced(h, r, n); q == r.(address := q.address, opIndex := q.opIndex)
  {}

  const EXAMPLE := Header(8, 1, 1, true, -5, 14, 13, [0, 1, 1, 1, 1, 0, 0, 0, 1, 0, 0, 1], ["a", "b", "c"])

  /** A sequence by hand: files are numbered from 0 and the first is 1, lines begin with 1, and the end of the sequence
      starts everything again. */
  lemma ExampleRows()
    ensures HeaderOk(EXAMPLE)
    ensures var rows := Run(EXAMPLE, EXAMPLE_PROGRAM, Initial(EXAMPLE));
      && |rows| == 5
      && ShownAs(rows[0], 0x1000, 1, 1, false) && ShownAs(rows[1], 0x1013, 2, 1, false)
      && ShownAs(rows[2], 0x1017, 9, 2, false) && ShownAs(rows[3], 0x1027, 9, 2, true)
      && ShownAs(rows[4], 0, 1, 1, false)
  {
    hide Run;
    var h := EXAMPLE;
    var r0 := Initial(h);
    var r1 := RunNext(h, EXAMPLE_PROGRAM, 0, r0);
    var r2 := RunNext(h, EXAMPLE_PROGRAM, 1, r1);
    var r3 := RunNext(h, EXAMPLE_PROGRAM, 2, r2);
    var r4 := RunNext(h, EXAMPLE_PROGRAM, 3, r3);
    var r5 := RunNext(h, EXAMPLE_PROGRAM, 4, r4);
    var r6 := RunNext(h, EXAMPLE_PROGRAM, 5, r5);
    var r7 := RunNext(h, EXAMPLE_PROGRAM, 6, r6);
    var r8 := RunNext(h, EXAMPLE_PROGRAM, 7, r7);
    var r9 := RunNext(h, EXAMPLE_PROGRAM, 8, r8);
    var r10 := RunNext(h, EXAMPLE_PROGRAM, 9, r9);
    var r11 := RunNext(h, EXAMPLE_PROGRAM, 10, r10);
    RunEnds(h, r11);
    assert EXAMPLE_PROGRAM[0..] == EXAMPLE_PROGRAM && EXAMPLE_PROGRAM[11..] == [];
  }

  lemma RunNext(h: Header, p: seq<Instr>, k: nat, r: Registers) returns (q: Registers)
    requires HeaderOk(h) && k < |p|
    ensures q == After(h, p[k], r) && Run(h, p[k..], r) == RowsOf(h, p[k], r) + Run(h, p[k + 1..], q)
  {
    hide After;
    hide RowsOf;
    q := After(h, p[k], r);
    assert p[k..][1..] == p[k + 1..];
  }

  lemma RunEnds(h: Header, r: Registers)
    requires HeaderOk(h)
    ensures Run(h, [], r) == []
  {}

  const EXAMPLE_PROGRAM: seq<Instr> :=
    [SetAddress(0x1000), Copy, ConstAddPc, Special(34), AdvanceLine(7), SetFile(2), AdvancePc(4), Copy,
     FixedAdvancePc(16), EndSequence, Copy]

  predicate ShownAs(r: Registers, address: nat, line: int, file: nat, isEnd: bool) {
    r.address == address && r.line == line && r.file == file && r.endSequence == isEnd
  }

  // ---------------------------------------------------------------- encoding

  /** The opcode of a standard instruction. */
  function Opcode(i: Instr): Byte {
    match i
    case Copy => 1
    case AdvancePc(_) => 2
    case AdvanceLine(_) => 3
    case SetFile(_) => 4
    case SetColumn(_) => 5
    case NegateStmt => 6
    case SetBasicBlock => 7
    case ConstAddPc => 8
    case FixedAdvancePc(_) => 9
    case SetPrologueEnd => 10
    case SetEpilogueBegin => 11
    case SetIsa(_) => 12
    case OtherStandard(opcode, _) => opcode
    case _ => 0
  }

  /** The operands of a standard instruction. */
  function Operands(i: Instr): seq<Byte> {
    match i
    case AdvancePc(n) => EncodeUnsigned(n)
    case AdvanceLine(delta) => EncodeSigned(delta)
    case SetFile(file) => EncodeUnsigned(file)
    case SetColumn(column) => EncodeUnsigned(column)
    case FixedAdvancePc(n) => Little(n, 2)
    case SetIsa(isa) => EncodeUnsigned(isa)
    case OtherStandard(_, operands) => EncodeAll(operands)
    case _ => []
  }

  function Little(v: nat, n: nat): (bytes: seq<Byte>)
    ensures |bytes| == n
  {
    seq(n, i requires 0 <= i < n => ByteOf(v, i))
  }

  function EncodeAll(vs: seq<nat>): seq<Byte> {
    if vs == [] then [] else EncodeUnsigned(vs[0]) + EncodeAll(vs[1..])
  }

  /** The opcode and operands of an extended instruction, the part that its length counts. */
  function Body(h: Header, i: Instr): seq<Byte> {
    match i
    case EndSequence => [1]
    case SetAddress(a) => [2] + Little(a, h.addressSize)
    case OtherExtended(opcode, payload) => [opcode] + payload
    case _ => []
  }

  predicate IsExtended(i: Instr) { i.EndSequence? || i.SetAddress? || i.OtherExtended? }

  predicate AllFit(vs: seq<nat>) {
    forall k :: 0 <= k < |vs| ==> vs[k] < U64_LIMIT
  }

  /** The instruction can be encoded for this header. */
  predicate InstrOk(h: Header, i: Instr)
    requires HeaderOk(h)
  {
    match i
    case Special(adjusted) => adjusted + h.opcodeBase < 256
    case EndSequence => true
    case SetAddress(a) => (h.addressSize == 4 || h.addressSize == 8) && Memory.Fits(a, h.addressSize)
    case OtherExtended(opcode, payload) => opcode != 1 && opcode != 2 && |payload| + 1 < U64_LIMIT
    case OtherStandard(opcode, operands) =>
      12 < opcode < h.opcodeBase && |operands| == h.lengths[opcode - 1] && AllFit(operands)
    case AdvancePc(n) => 2 < h.opcodeBase && n < U64_LIMIT
    case AdvanceLine(delta) => 3 < h.opcodeBase && 0 <= delta + Leb128.S64_LIMIT && delta < Leb128.S64_LIMIT
    case SetFile(file) => 4 < h.opcodeBase && file < U64_LIMIT
    case SetColumn(column) => 5 < h.opcodeBase && column < U64_LIMIT
    case FixedAdvancePc(n) => 9 < h.opcodeBase && Memory.Fits(n, 2)
    case SetIsa(isa) => 12 < h.opcodeBase && isa < U64_LIMIT
    case _ => Opcode(i) < h.opcodeBase
  }

  function Encode(h: Header, i: Instr): seq<Byte>
    requires HeaderOk(h) && InstrOk(h, i)
  {
    if i.Special? then [i.adjusted + h.opcodeBase]
    else if IsExtended(i) then [0] + (EncodeUnsigned(|Body(h, i)|) + Body(h, i))
    else [Opcode(i)] + Operands(i)
  }

  predicate ProgramOk(h: Header, p: seq<Instr>)
    requires HeaderOk(h)
  {
    forall i <- p :: InstrOk(h, i)
  }

  function EncodeProgram(h: Header, p: seq<Instr>): seq<Byte>
    requires HeaderOk(h) && ProgramOk(h, p)
  {
    if p == [] then [] else Encode(h, p[0]) + EncodeProgram(h, p[1..])
  }

  // ---------------------------------------------------------------- what the bytes say

  /** The operands of a standard instruction that is not known. */
  function AllAt(bytes: seq<Byte>, count: nat): (r: Read<seq<nat>>)
    ensures r.Value? ==> r.length <= |bytes|
  {
    if count == 0 then Value([], 0)
    else
      match Unsigned(bytes)
      case Failed => Failed
      case Value(v, n) =>
        match AllAt(bytes[n..], count - 1)
        case Failed => Failed
        case Value(vs, k) => Value([v] + vs, n + k)
  }

  function LittleAt(bytes: seq<Byte>, n: nat): (r: Read<nat>)
    ensures r.Value? ==> r.length <= |bytes|
  {
    if |bytes| < n then Failed else Value(Memory.Value(bytes[..n]), n)
  }

  /** A standard instruction, behind its opcode. */
  function StandardAt(h: Header, opcode: Byte, bytes: seq<Byte>): (r: Read<Instr>)
    requires HeaderOk(h) && 0 < opcode < h.opcodeBase
    ensures r.Value? ==> r.length <= |bytes|
  {
    match opcode
    case 1 => Value(Copy, 0)
    case 2 => Of(Unsigned(bytes), n => AdvancePc(n))
    case 3 => Of(Signed(bytes), delta => AdvanceLine(delta))
    case 4 => Of(Unsigned(bytes), file => SetFile(file))
    case 5 => Of(Unsigned(bytes), column => SetColumn(column))
    case 6 => Value(NegateStmt, 0)
    case 7 => Value(SetBasicBlock, 0)
    case 8 => Value(ConstAddPc, 0)
    case 9 => Of(LittleAt(bytes, 2), n => FixedAdvancePc(n))
    case 10 => Value(SetPrologueEnd, 0)
    case 11 => Value(SetEpilogueBegin, 0)
    case 12 => Of(Unsigned(bytes), isa => SetIsa(isa))
    case _ => Of(AllAt(bytes, h.lengths[opcode - 1]), operands => OtherStandard(opcode, operands))
  }

  function Of<T>(r: Read<T>, f: T -> Instr): Read<Instr> {
    match r
    case Failed => Failed
    case Value(v, n) => Value(f(v), n)
  }

  /** An extended instruction, behind its marker. An address may be followed by bytes that are skipped. */
  function ExtendedAt(h: Header, bytes: seq<Byte>): (r: Read<Instr>)
    ensures r.Value? ==> r.length <= |bytes|
  {
    match Unsigned(bytes)
    case Failed => Failed
    case Value(length, n) =>
      if length == 0 || |bytes| < n + length then Failed
      else
        var opcode, operands := bytes[n], bytes[n + 1..n + length];
        if opcode == 1 then if length == 1 then Value(EndSequence, n + 1) else Failed
        else if opcode == 2 then
          if (h.addressSize != 4 && h.addressSize != 8) || |operands| < h.addressSize then Failed
          else Value(SetAddress(Memory.Value(operands[..h.addressSize])), n + length)
        else Value(OtherExtended(opcode, operands), n + length)
  }

  /** The instruction at the front. */
  function InstrAt(h: Header, bytes: seq<Byte>): (r: Read<Instr>)
    requires HeaderOk(h)
    ensures r.Value? ==> 0 < r.length <= |bytes|
  {
    if bytes == [] then Failed
    else if bytes[0] == 0 then Later(ExtendedAt(h, bytes[1..]))
    else if bytes[0] < h.opcodeBase then Later(StandardAt(h, bytes[0], bytes[1..]))
    else Value(Special(bytes[0] - h.opcodeBase), 1)
  }

  function Later(r: Read<Instr>): Read<Instr> {
    match r
    case Failed => Failed
    case Value(i, n) => Value(i, n + 1)
  }

  datatype Program = Malformed | Program(instructions: seq<Instr>)

  /** The instructions that fill `[at, end)` exactly. */
  function ProgramAt(h: Header, source: seq<Byte>, at: nat, end: nat): Program
    requires HeaderOk(h) && at <= |source|
    decreases |source| - at
  {
    if at >= end then if at == end then Program([]) else Malformed
    else
      match InstrAt(h, source[at..])
      case Failed => Malformed
      case Value(i, n) =>
        match ProgramAt(h, source, at + n, end)
        case Malformed => Malformed
        case Program(p) => Program([i] + p)
  }

  // ---------------------------------------------------------------- round trips

  lemma LittleRoundTrip(v: nat, n: nat, rest: seq<Byte>)
    requires Memory.Fits(v, n)
    ensures LittleAt(Little(v, n) + rest, n) == Value(v, n)
  {
    ValueOfBytes(v, Little(v, n));
    assert (Little(v, n) + rest)[..n] == Little(v, n);
  }

  lemma {:induction false} AllRoundTrip(vs: seq<nat>, rest: seq<Byte>)
    requires AllFit(vs)
    ensures AllAt(EncodeAll(vs) + rest, |vs|) == Value(vs, |EncodeAll(vs)|)
    decreases |vs|
  {
    hide Unsigned;
    hide EncodeUnsigned;
    if vs != [] {
      var e, tail := EncodeUnsigned(vs[0]), EncodeAll(vs[1..]) + rest;
      assert EncodeAll(vs) + rest == e + tail;
      UnsignedRoundTrip(vs[0], tail);
      assert (e + tail)[|e|..] == tail;
      AllRoundTrip(vs[1..], rest);
      assert [vs[0]] + vs[1..] == vs;
    }
  }

  lemma StandardRoundTrip(h: Header, i: Instr, rest: seq<Byte>)
    requires HeaderOk(h) && InstrOk(h, i) && !i.Special? && !IsExtended(i)
    ensures 0 < Opcode(i) < h.opcodeBase
    ensures StandardAt(h, Opcode(i), Operands(i) + rest) == Value(i, |Operands(i)|)
  {
    hide Unsigned;
    hide Signed;
    hide AllAt;
    hide LittleAt;
    match i
    case AdvancePc(n) => UnsignedRoundTrip(n, rest);
    case AdvanceLine(delta) => SignedRoundTrip(delta, rest);
    case SetFile(file) => UnsignedRoundTrip(file, rest);
    case SetColumn(column) => UnsignedRoundTrip(column, rest);
    case FixedAdvancePc(n) => LittleRoundTrip(n, 2, rest);
    case SetIsa(isa) => UnsignedRoundTrip(isa, rest);
    case OtherStandard(_, operands) => AllRoundTrip(operands, rest);
    case _ =>
  }

  lemma ExtendedRoundTrip(h: Header, i: Instr, rest: seq<Byte>)
    requires HeaderOk(h) && InstrOk(h, i) && IsExtended(i)
    ensures var e := EncodeUnsigned(|Body(h, i)|) + Body(h, i);
      ExtendedAt(h, e + rest) == Value(i, |e|)
  {
    hide Unsigned;
    hide EncodeUnsigned;
    var body := Body(h, i);
    var e := EncodeUnsigned(|body|);
    UnsignedRoundTrip(|body|, body + rest);
    var bytes := e + body + rest;
    assert bytes == e + (body + rest);
    assert bytes[|e|] == body[0] && bytes[|e| + 1..|e| + |body|] == body[1..];
    if i.SetAddress? {
      LittleRoundTrip(i.address, h.addressSize, []);
      assert body[1..] == Little(i.address, h.addressSize) + [];
    }
  }

  lemma InstrRoundTrip(h: Header, i: Instr, rest: seq<Byte>)
    requires HeaderOk(h) && InstrOk(h, i)
    ensures InstrAt(h, Encode(h, i) + rest) == Value(i, |Encode(h, i)|)
  {
    hide Unsigned;
    hide StandardAt;
    hide ExtendedAt;
    var bytes := Encode(h, i) + rest;
    if i.Special? {
    } else if IsExtended(i) {
      ExtendedRoundTrip(h, i, rest);
      assert bytes[1..] == EncodeUnsigned(|Body(h, i)|) + Body(h, i) + rest;
    } else {
      StandardRoundTrip(h, i, rest);
      assert bytes[1..] == Operands(i) + rest;
    }
  }

  /** Every program is found again in the bytes that encode it, wherever they lie. */
  lemma {:induction false} ProgramRoundTrip(h: Header, p: seq<Instr>, before: seq<Byte>, rest: seq<Byte>)
    requires HeaderOk(h) && ProgramOk(h, p)
    ensures var e := EncodeProgram(h, p);
      ProgramAt(h, before + e + rest, |before|, |before| + |e|) == Program(p)
    decreases |p|
  {
    hide InstrOk;
    hide InstrAt;
    hide Encode;
    if p != [] {
      assert p[0] in p;
      var first, tail := Encode(h, p[0]), EncodeProgram(h, p[1..]);
      var source := before + EncodeProgram(h, p) + rest;
      InstrRoundTrip(h, p[0], tail + rest);
      assert source[|before|..] == first + (tail + rest);
      ProgramRoundTrip(h, p[1..], before + first, rest);
      assert source == before + first + tail + rest;
    }
  }

  // ---------------------------------------------------------------- the parser

  /** What the parser supports: one operation to an instruction, and file numbers that fit their register. */
  ghost predicate Supported(h: Header) {
    HeaderOk(h) && h.maximumOperations == 1 && |h.files| <= FILE_LIMIT
  }

  function Low64(n: nat): nat { n % U64_LIMIT }

  function Low32(n: nat): nat { n % FILE_LIMIT }

  /** The parser's registers hold the machine's in the width they have. */
  ghost predicate Agrees(state: Registers, r: Registers) {
    && state.address == Low64(r.address) && state.opIndex == r.opIndex == 0
    && state.file == Low32(r.file) && state.line == r.line && !r.endSequence
  }

  /** What a row of the matrix becomes in the table. */
  function Shown(h: Header, r: Registers): Row
    requires r.file < |h.files|
  {
    Row(Low64(r.address), h.files[r.file], r.line, r.endSequence)
  }

  function Table(h: Header, rs: seq<Registers>): seq<Row>
    requires AllNamed(h, rs)
  {
    seq(|rs|, k requires 0 <= k < |rs| => Shown(h, rs[k]))
  }

  lemma Named(h: Header, i: Instr, r: Registers)
    requires HeaderOk(h) && StepOk(h, i, r)
    ensures AllNamed(h, RowsOf(h, i, r))
    ensures i.Copy? || i.EndSequence? || i.Special? ==> r.file < |h.files|
  {
    if i.Copy? || i.EndSequence? || i.Special? { assert RowsOf(h, i, r)[0].file < |h.files|; }
  }

  lemma NoRows(h: Header)
    ensures Table(h, []) == []
  {}

  /** The row of the parser's registers is the one the matrix shows. */
  lemma OneRow(h: Header, state: Registers, r: Registers, isEnd: bool)
    requires Supported(h) && Agrees(state, r) && r.file < |h.files|
    ensures state.file == r.file && AllNamed(h, [r.(endSequence := isEnd)])
    ensures Table(h, [r.(endSequence := isEnd)]) == [Row(state.address, h.files[state.file], state.line, isEnd)]
  {
    var row := r.(endSequence := isEnd);
    assert Table(h, [row])[0] == Shown(h, row);
  }

  lemma QuietDone(h: Header, i: Instr, r: Registers, next: Registers)
    requires HeaderOk(h) && StepOk(h, i, r) && Agrees(next, After(h, i, r))
    requires !i.Copy? && !i.EndSequence? && !i.Special?
    ensures StepDone(h, i, r, next, [])
  {
    NoRows(h);
  }

  /** A row and the registers that stay as they were, or start again. */
  lemma RowDone(h: Header, i: Instr, r: Registers, state: Registers, next: Registers)
    requires Supported(h) && StepOk(h, i, r) && Agrees(state, r) && (i.Copy? || i.EndSequence?)
    requires next == if i.Copy? then Appended(state) else Initial(h)
    ensures state.file < |h.files|
    ensures StepDone(h, i, r, next, [Row(state.address, h.files[state.file], state.line, i.EndSequence?)])
  {
    Named(h, i, r);
    OneRow(h, state, r, i.EndSequence?);
    assert RowsOf(h, i, r) == [r.(endSequence := i.EndSequence?)];
  }

  /** `n` as a 32-bit signed number. */
  function Narrow(n: int): int {
    var m := n % (2 * LINE_LIMIT);
    if m >= LINE_LIMIT then m - 2 * LINE_LIMIT else m
  }

  lemma AddMod(a: nat, b: nat)
    ensures (a % U64_LIMIT + b) % U64_LIMIT == (a + b) % U64_LIMIT
    ensures (a % U64_LIMIT + b % U64_LIMIT) % U64_LIMIT == (a + b) % U64_LIMIT
  {}

  /** A step of the parser does what the machine does. */
  ghost predicate StepDone(h: Header, i: Instr, r: Registers, next: Registers, rows: seq<Row>)
    requires HeaderOk(h) && StepOk(h, i, r)
  {
    Agrees(next, After(h, i, r)) && rows == Table(h, RowsOf(h, i, r))
  }

  /** A word has room for the address. */
  lemma AddressFits(n: nat, address: nat)
    ensures (n == 4 || n == 8) && address < Pow2(8 * n) ==> address < U64_LIMIT
  {
    Pow2Values();
  }

  lemma NarrowFits(n: int)
    ensures 0 <= n + LINE_LIMIT && n < LINE_LIMIT ==> Narrow(n) == n
  {}

  lemma LineFits(h: Header, i: Instr, r: Registers)
    requires HeaderOk(h) && StepOk(h, i, r)
    ensures 0 <= After(h, i, r).line + LINE_LIMIT && After(h, i, r).line < LINE_LIMIT
  {}

  lemma UnsignedFits(bytes: seq<Byte>)
    ensures Unsigned(bytes).Value? ==> Unsigned(bytes).value < U64_LIMIT
  {}

  lemma SliceOfSlice(s: seq<Byte>, a: nat, b: nat, c: nat, k: nat)
    requires a + b + k <= a + c <= |s|
    ensures s[a..][b..c][..k] == s[a + b..a + b + k]
  {}

  /** The operand of `DW_LNE_set_address`, and the bytes that its length counts behind it. */
  method ReadAddress(reader: Reader, h: Header, length: nat) returns (address: nat)
    requires reader.Valid() && (h.addressSize == 4 || h.addressSize == 8)
    requires h.addressSize < length && reader.offset + length - 1 <= |reader.source|
    modifies reader
    ensures reader.Valid() && reader.offset == old(reader.offset) + length - 1 && address < U64_LIMIT
    ensures address == Memory.Value(reader.source[old(reader.offset)..old(reader.offset) + h.addressSize])
  {
    hide Pow2;
    var ok;
    if h.addressSize == 4 { address, ok := reader.ReadLittle(4); } else { address, ok := reader.ReadLittle(8); }
    assert ok;
    AddressFits(h.addressSize, address);
    ok := reader.Skip(length - h.addressSize - 1);
    assert ok;
  }

  /** The extended instructions. */
  method ReadExtended(reader: Reader, h: Header, state: Registers, ghost i: Instr, ghost n: nat, ghost r: Registers)
    returns (next: Registers, rows: seq<Row>)
    requires reader.Valid() && Supported(h) && Agrees(state, r) && StepOk(h, i, r)
    requires ExtendedAt(h, reader.source[reader.offset..]) == Value(i, n)
    modifies reader
    ensures reader.Valid() && reader.offset == old(reader.offset) + n && StepDone(h, i, r, next, rows)
  {
    hide Unsigned;
    hide StepOk;
    hide StepDone;
    hide RowsOf;
    ghost var start, bytes := reader.offset, reader.source[reader.offset..];
    var length, opcode, ok, opcodeOk;
    length, ok := reader.ReadUnsigned();
    opcode, opcodeOk := reader.ReadByte();
    assert ok && opcodeOk;
    next, rows := state, [];
    if opcode == 1 {
      assert length == 1;
      RowDone(h, i, r, state, Initial(h));
      rows := [Row(state.address, h.files[state.file], state.line, true)];
      next := Initial(h);
    } else if opcode == 2 {
      ghost var n := Unsigned(bytes).length;
      SliceOfSlice(reader.source, start, n + 1, n + length, h.addressSize);
      var address := ReadAddress(reader, h, length);
      next := state.(address := address, opIndex := 0);
      QuietDone(h, i, r, next);
    } else {
      ok := reader.Skip(length - 1);
      assert ok;
      QuietDone(h, i, r, next);
    }
  }

  predicate HasOperand(opcode: Byte) {
    opcode > 11 || 2 <= opcode <= 5 || opcode == 9
  }

  function PlainInstr(opcode: Byte): Instr {
    match opcode
    case 1 => Copy
    case 6 => NegateStmt
    case 7 => SetBasicBlock
    case 8 => ConstAddPc
    case 10 => SetPrologueEnd
    case _ => SetEpilogueBegin
  }

  lemma Plain(h: Header, opcode: Byte, bytes: seq<Byte>)
    requires HeaderOk(h) && 0 < opcode < h.opcodeBase
    ensures !HasOperand(opcode) ==> StandardAt(h, opcode, bytes) == Value(PlainInstr(opcode), 0)
  {}

  lemma PlainAfter(h: Header, opcode: Byte, r: Registers)
    requires HeaderOk(h) && opcode > 1 && !HasOperand(opcode)
    ensures After(h, PlainInstr(opcode), r) ==
      if opcode == 6 then r.(isStmt := !r.isStmt)
      else if opcode == 7 then r.(basicBlock := true)
      else if opcode == 8 then Advanced(h, r, LongestAdvance(h))
      else if opcode == 10 then r.(prologueEnd := true)
      else r.(epilogueBegin := true)
  {
    hide Advanced;
    hide LongestAdvance;
  }

  /** The standard instructions that set a flag or add a constant. */
  method RunPlain(h: Header, opcode: Byte, state: Registers, ghost r: Registers) returns (next: Registers)
    requires Supported(h) && Agrees(state, r) && opcode > 1 && !HasOperand(opcode)
    ensures Agrees(next, After(h, PlainInstr(opcode), r))
  {
    hide Low32;
    hide Low64;
    hide Initial;
    hide Moved;
    hide Advanced;
    hide LongestAdvance;
    PlainAfter(h, opcode, r);
    hide PlainInstr;
    hide After;
    if opcode == 6 {
      next := state.(isStmt := !state.isStmt);
    } else if opcode == 7 {
      next := state.(basicBlock := true);
    } else if opcode == 8 {
      next := AddConstant(h, state, r);
    } else if opcode == 10 {
      next := state.(prologueEnd := true);
    } else {
      next := state.(epilogueBegin := true);
    }
  }

  /** The standard instructions. */
  method ReadStandard(reader: Reader, h: Header, opcode: Byte, state: Registers, ghost i: Instr, ghost n: nat,
                      ghost r: Registers)
    returns (next: Registers, rows: seq<Row>)
    requires reader.Valid() && Supported(h) && Agrees(state, r) && StepOk(h, i, r) && 0 < opcode < h.opcodeBase
    requires StandardAt(h, opcode, reader.source[reader.offset..]) == Value(i, n)
    modifies reader
    ensures reader.Valid() && reader.offset == old(reader.offset) + n && StepDone(h, i, r, next, rows)
  {
    hide Unsigned;
    hide Signed;
    hide AllAt;
    hide LittleAt;
    hide Low32;
    hide Low64;
    hide Advanced;
    hide LongestAdvance;
    hide Initial;
    hide Moved;
    hide RowsOf;
    hide StepOk;
    hide StepDone;
    next, rows := state, [];
    Plain(h, opcode, reader.source[reader.offset..]);
    hide StandardAt;
    if opcode == 1 {
      next := Appended(state);
      RowDone(h, i, r, state, next);
      rows := [Row(state.address, h.files[state.file], state.line, false)];
    } else if HasOperand(opcode) {
      next := ReadOperand(reader, h, opcode, state, i, n, r);
      QuietDone(h, i, r, next);
    } else {
      next := RunPlain(h, opcode, state, r);
      QuietDone(h, i, r, next);
    }
  }

  /** The standard instructions that have an operand. */
  method ReadOperand(reader: Reader, h: Header, opcode: Byte, state: Registers, ghost i: Instr, ghost n: nat,
                     ghost r: Registers)
    returns (next: Registers)
    requires reader.Valid() && Supported(h) && Agrees(state, r) && StepOk(h, i, r)
    requires HasOperand(opcode) && opcode < h.opcodeBase
    requires StandardAt(h, opcode, reader.source[reader.offset..]) == Value(i, n)
    modifies reader
    ensures reader.Valid() && reader.offset == old(reader.offset) + n && Agrees(next, After(h, i, r))
  {
    hide Unsigned;
    hide Signed;
    hide AllAt;
    hide Narrow;
    hide Low32;
    hide Low64;
    hide LittleAt;
    hide Initial;
    hide Moved;
    hide Advanced;
    hide StepOk;
    ghost var bytes := reader.source[reader.offset..];
    UnsignedFits(bytes);
    next := state;
    var x, delta, ok;
    match opcode {
      case 2 =>
        x, ok := reader.ReadUnsigned();
        assert ok;
        next := AdvanceAddress(h, state, x, r);
      case 3 =>
        delta, ok := reader.ReadSigned();
        assert ok;
        LineFits(h, i, r);
        NarrowFits(state.line + delta);
        next := state.(line := Narrow(state.line + delta));
      case 4 =>
        x, ok := reader.ReadUnsigned();
        assert ok;
        next := state.(file := Low32(x));
      case 5 =>
        x, ok := reader.ReadUnsigned();
        assert ok;
        next := state.(column := Low32(x));
      case 9 =>
        LittleLength(bytes, 2);
        next := AddFixed(reader, state, r, i.advance);
      case 12 =>
        x, ok := reader.ReadUnsigned();
        assert ok;
        next := state.(isa := Low32(x));
      case _ => SkipOperands(reader, h.lengths[opcode - 1]);
    }
  }

  /** With one operation to an instruction an advance only moves the address. */
  lemma AdvancedIs(h: Header, r: Registers, n: nat)
    requires Supported(h) && r.opIndex == 0
    ensures Advanced(h, r, n) == r.(address := r.address + n * h.minimumLength)
  {
    ByOne(n);
  }

  /** An operand advance, in 64 bits. */
  method AdvanceAddress(h: Header, state: Registers, advance: nat, ghost r: Registers) returns (next: Registers)
    requires Supported(h) && Agrees(state, r) && advance < U64_LIMIT
    ensures Agrees(next, Advanced(h, r, advance))
  {
    hide Advanced;
    AdvancedIs(h, r, advance);
    var moved := (state.opIndex + advance) % U64_LIMIT;
    ByOne(moved);
    var bytes := h.minimumLength * (moved / h.maximumOperations) % U64_LIMIT;
    AddMod(r.address, h.minimumLength * advance);
    next := state.(address := (state.address + bytes) % U64_LIMIT, opIndex := moved % h.maximumOperations);
  }

  /** What a special opcode 255 would add to the address. */
  method AddConstant(h: Header, state: Registers, ghost r: Registers) returns (next: Registers)
    requires Supported(h) && Agrees(state, r)
    ensures Agrees(next, Advanced(h, r, LongestAdvance(h)))
  {
    hide Agrees;
    hide Advanced;
    var advance := (255 - h.opcodeBase) / h.lineRange;
    next := state.(address := (state.address + advance * h.minimumLength) % U64_LIMIT);
    AddedAgrees(h, state, r, advance, next);
  }

  lemma AddedAgrees(h: Header, state: Registers, r: Registers, advance: nat, next: Registers)
    requires Supported(h) && Agrees(state, r)
    requires next == state.(address := (state.address + advance * h.minimumLength) % U64_LIMIT)
    ensures Agrees(next, Advanced(h, r, advance))
  {
    hide Advanced;
    AddMod(r.address, advance * h.minimumLength);
    AdvancedIs(h, r, advance);
  }

  /** Reading a half word. */
  method AddFixed(reader: Reader, state: Registers, ghost r: Registers, ghost n: nat) returns (next: Registers)
    requires reader.Valid() && Agrees(state, r) && LittleAt(reader.source[reader.offset..], 2) == Value(n, 2)
    modifies reader
    ensures reader.Valid() && reader.offset == old(reader.offset) + 2
    ensures Agrees(next, r.(address := r.address + n, opIndex := 0))
  {
    ghost var bytes := reader.source[reader.offset..];
    var advance, ok := reader.ReadLittle(2);
    assert ok && bytes[..2] == reader.source[reader.offset - 2..reader.offset];
    AddMod(r.address, advance);
    next := state.(address := (state.address + advance) % U64_LIMIT, opIndex := 0);
  }

  lemma LittleLength(bytes: seq<Byte>, n: nat)
    ensures LittleAt(bytes, n).Value? ==> LittleAt(bytes, n).length == n
  {}

  /** The operands of an instruction that is not known. */
  method SkipOperands(reader: Reader, count: Byte)
    requires reader.Valid() && AllAt(reader.source[reader.offset..], count).Value?
    modifies reader
    ensures reader.Valid()
    ensures reader.offset == old(reader.offset) + AllAt(reader.source[old(reader.offset)..], count).length
  {
    hide Unsigned;
    ghost var start, all := reader.offset, AllAt(reader.source[reader.offset..], count);
    for index := 0 to count
      invariant reader.Valid() && start <= reader.offset
      invariant AllAt(reader.source[reader.offset..], count - index).Value?
      invariant reader.offset - start + AllAt(reader.source[reader.offset..], count - index).length == all.length
    {
      ghost var at := reader.offset;
      var _, ok := reader.ReadUnsigned();
      assert ok;
      assert reader.source[at..][reader.offset - at..] == reader.source[reader.offset..];
    }
  }

  lemma MovedAgrees(h: Header, adjusted: nat, r: Registers, next: Registers)
    requires Supported(h) && r.opIndex == 0 && !r.endSequence
    requires next.address == (r.address + adjusted / h.lineRange * h.minimumLength) % U64_LIMIT
    requires next.opIndex == 0 && next.file == Low32(r.file)
    requires next.line == r.line + (h.lineBase + adjusted % h.lineRange)
    ensures Agrees(next, Moved(h, r, adjusted)) && Moved(h, r, adjusted).file == r.file
  {
    AdvancedIs(h, r, adjusted / h.lineRange);
  }

  lemma SpecialLine(h: Header, adjusted: nat, r: Registers)
    requires HeaderOk(h) && StepOk(h, Special(adjusted), r)
    ensures var line := r.line + (h.lineBase + adjusted % h.lineRange);
      0 <= line + LINE_LIMIT && line < LINE_LIMIT
  {}

  lemma SpecialDone(h: Header, adjusted: nat, r: Registers, next: Registers, rows: seq<Row>)
    requires HeaderOk(h) && StepOk(h, Special(adjusted), r) && Agrees(next, Moved(h, r, adjusted))
    requires AllNamed(h, [Moved(h, r, adjusted)]) && rows == Table(h, [Moved(h, r, adjusted)])
    ensures StepDone(h, Special(adjusted), r, next, rows)
  {}

  lemma ByOne(n: nat)
    ensures n / 1 == n && n % 1 == 0
  {}

  /** A special instruction. */
  method RunSpecial(h: Header, opcode: Byte, state: Registers, ghost r: Registers)
    returns (next: Registers, rows: seq<Row>)
    requires Supported(h) && Agrees(state, r) && h.opcodeBase <= opcode && StepOk(h, Special(opcode - h.opcodeBase), r)
    ensures StepDone(h, Special(opcode - h.opcodeBase), r, next, rows)
  {
    hide Moved;
    hide Narrow;
    hide StepOk;
    hide StepDone;
    var adjusted := opcode - h.opcodeBase;
    var advance := adjusted / h.lineRange;
    var delta := h.lineBase + adjusted % h.lineRange;
    AddMod(r.address, advance * h.minimumLength);
    NarrowFits(state.line + delta);
    ByOne(state.opIndex + advance);
    SpecialLine(h, adjusted, r);
    next := state.(address := (state.address + advance * h.minimumLength) % U64_LIMIT,
                   line := Narrow(state.line + delta),
                   opIndex := (state.opIndex + advance) % h.maximumOperations);
    Named(h, Special(adjusted), r);
    MovedAgrees(h, adjusted, r, next);
    OneRow(h, next, Moved(h, r, adjusted), false);
    rows := [Row(next.address, h.files[next.file], next.line, false)];
    SpecialDone(h, adjusted, r, next, rows);
  }

  /** One instruction. */
  method Step(reader: Reader, h: Header, state: Registers, ghost i: Instr, ghost n: nat, ghost r: Registers)
    returns (next: Registers, rows: seq<Row>)
    requires reader.Valid() && Supported(h) && Agrees(state, r) && StepOk(h, i, r)
    requires InstrAt(h, reader.source[reader.offset..]) == Value(i, n)
    modifies reader
    ensures reader.Valid() && reader.offset == old(reader.offset) + n && StepDone(h, i, r, next, rows)
  {
    hide StandardAt;
    hide ExtendedAt;
    hide StepOk;
    hide StepDone;
    ghost var bytes := reader.source[reader.offset..];
    var opcode, ok := reader.ReadByte();
    assert ok && opcode == bytes[0];
    assert bytes[1..] == reader.source[reader.offset..];
    if opcode == 0 {
      next, rows := ReadExtended(reader, h, state, i, n - 1, r);
    } else if opcode < h.opcodeBase {
      next, rows := ReadStandard(reader, h, opcode, state, i, n - 1, r);
    } else {
      next, rows := RunSpecial(h, opcode, state, r);
    }
  }

  lemma TableMore(h: Header, done: seq<Registers>, more: seq<Registers>)
    requires AllNamed(h, done) && AllNamed(h, more)
    ensures AllNamed(h, done + more) && Table(h, done + more) == Table(h, done) + Table(h, more)
  {}

  /** The loop of `parse_line_table`. */
  method ParseRows(reader: Reader, h: Header, end: nat, ghost p: seq<Instr>) returns (rows: seq<Row>)
    requires reader.Valid() && Supported(h)
    requires ProgramAt(h, reader.source, reader.offset, end) == Program(p) && RunOk(h, p, Initial(h))
    modifies reader
    ensures reader.Valid() && reader.offset == end
    ensures AllNamed(h, Run(h, p, Initial(h))) && rows == Table(h, Run(h, p, Initial(h)))
  {
    hide InstrAt;
    hide StepOk;
    hide After;
    hide RowsOf;
    var state := Initial(h);
    rows := [];
    ghost var r, rest, done := Initial(h), p, [];
    while reader.offset < end
      invariant reader.Valid() && ProgramAt(h, reader.source, reader.offset, end) == Program(rest)
      invariant RunOk(h, rest, r) && Agrees(state, r)
      invariant Run(h, p, Initial(h)) == done + Run(h, rest, r)
      invariant AllNamed(h, done) && rows == Table(h, done)
      decreases |reader.source| - reader.offset
    {
      ghost var i := rest[0];
      var more;
      Named(h, i, r);
      ghost var n := InstrAt(h, reader.source[reader.offset..]).length;
      state, more := Step(reader, h, state, i, n, r);
      TableMore(h, done, RowsOf(h, i, r));
      rows := rows + more;
      done, rest, r := done + RowsOf(h, i, r), rest[1..], After(h, i, r);
    }
    assert done + [] == done;
  }
}
