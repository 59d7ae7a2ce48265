/** Abbreviation tables of section 7.5.3 of DWARF 5: their encoding, and the parser that undoes it. */
module Abbreviations {
  import opened Bits
  import opened Memory
  import opened Leb128
  import opened ByteReader

  /** `DW_FORM_implicit_const`: the value is in the table itself. */
  const IMPLICIT_CONST: nat := 0x21

  datatype Spec = Spec(attribute: nat, form: nat, constant: int)

  datatype Abbreviation = Abbreviation(tag: nat, hasChildren: bool, specs: seq<Spec>)

  datatype Entry = Entry(code: nat, abbreviation: Abbreviation)

  // ---------------------------------------------------------------- encoding

  ghost predicate SpecOk(s: Spec) {
    && s.attribute < U64_LIMIT && s.form < U64_LIMIT && !(s.attribute == 0 && s.form == 0)
    && 0 <= s.constant + Leb128.S64_LIMIT && s.constant < Leb128.S64_LIMIT
    && (s.form != IMPLICIT_CONST ==> s.constant == 0)
  }

  ghost predicate EntryOk(e: Entry) {
    0 < e.code < U64_LIMIT && e.abbreviation.tag < U64_LIMIT && forall s <- e.abbreviation.specs :: SpecOk(s)
  }

  function EncodeSpec(s: Spec): seq<Byte> {
    EncodeUnsigned(s.attribute)
    + (EncodeUnsigned(s.form) + if s.form == IMPLICIT_CONST then EncodeSigned(s.constant) else [])
  }

  function EncodeSpecs(ss: seq<Spec>): seq<Byte> {
    if ss == [] then [0, 0] else EncodeSpec(ss[0]) + EncodeSpecs(ss[1..])
  }

  function EncodeEntry(e: Entry): seq<Byte> {
    EncodeUnsigned(e.code)
    + (EncodeUnsigned(e.abbreviation.tag)
       + ([if e.abbreviation.hasChildren then 1 else 0] + EncodeSpecs(e.abbreviation.specs)))
  }

  function EncodeTable(es: seq<Entry>): seq<Byte> {
    if es == [] then [0] else EncodeEntry(es[0]) + EncodeTable(es[1..])
  }

  /** The table that the entries build up: a repeated code replaces the earlier entry. */
  function TableOf(es: seq<Entry>, m: map<nat, Abbreviation>): map<nat, Abbreviation> {
    if es == [] then m else TableOf(es[1..], m[es[0].code := es[0].abbreviation])
  }

  // ---------------------------------------------------------------- what the bytes say

  function Later<T>(r: Read<T>, n: nat): Read<T> {
    match r
    case Failed => Failed
    case Value(v, k) => Value(v, n + k)
  }

  function SpecAt(bytes: seq<Byte>): (r: Read<Spec>)
    ensures r.Value? ==> 0 < r.length <= |bytes|
  {
    var a := Unsigned(bytes);
    if a.Failed? then Failed
    else
      var f := Unsigned(bytes[a.length..]);
      if f.Failed? then Failed
      else if f.value != IMPLICIT_CONST then Value(Spec(a.value, f.value, 0), a.length + f.length)
      else
        match Signed(bytes[a.length + f.length..])
        case Failed => Failed
        case Value(c, k) => Value(Spec(a.value, f.value, c), a.length + f.length + k)
  }

  /** The attribute specifications up to and including the pair of zeros. */
  function SpecsAt(bytes: seq<Byte>): (r: Read<seq<Spec>>)
    ensures r.Value? ==> r.length <= |bytes|
    decreases |bytes|
  {
    match SpecAt(bytes)
    case Failed => Failed
    case Value(s, n) =>
      if s.attribute == 0 && s.form == 0 then Value([], n)
      else
        match SpecsAt(bytes[n..])
        case Failed => Failed
        case Value(ss, k) => Value([s] + ss, n + k)
  }

  /** The part of an entry that follows its code. */
  function AbbreviationAt(bytes: seq<Byte>): (r: Read<Abbreviation>)
    ensures r.Value? ==> r.length <= |bytes|
  {
    match Unsigned(bytes)
    case Failed => Failed
    case Value(tag, n) =>
      if n == |bytes| then Failed
      else
        match SpecsAt(bytes[n + 1..])
        case Failed => Failed
        case Value(ss, k) => Value(Abbreviation(tag, bytes[n] != 0, ss), n + 1 + k)
  }

  /** The table, added to `m`, up to and including its terminator. */
  function TableAt(bytes: seq<Byte>, m: map<nat, Abbreviation>): Read<map<nat, Abbreviation>>
    decreases |bytes|
  {
    match Unsigned(bytes)
    case Failed => Failed
    case Value(code, n) =>
      if code == 0 then Value(m, n)
      else
        match AbbreviationAt(bytes[n..])
        case Failed => Failed
        case Value(a, k) => Later(TableAt(bytes[n + k..], m[code := a]), n + k)
  }

  // ---------------------------------------------------------------- round trips

  /** Reading a number in front of anything. */
  lemma ReadFront(v: nat, e: seq<Byte>, rest: seq<Byte>)
    requires v < U64_LIMIT && e == EncodeUnsigned(v)
    ensures Unsigned(e + rest) == Value(v, |e|) && (e + rest)[|e|..] == rest
  {
    UnsignedRoundTrip(v, rest);
  }

  lemma DropTwo(a: seq<Byte>, b: seq<Byte>, c: seq<Byte>)
    ensures (a + (b + c))[|a| + |b|..] == c
  {}

  lemma SpecRoundTrip(s: Spec, rest: seq<Byte>)
    requires SpecOk(s)
    ensures SpecAt(EncodeSpec(s) + rest) == Value(s, |EncodeSpec(s)|)
    ensures (EncodeSpec(s) + rest)[|EncodeSpec(s)|..] == rest
  {
    hide Unsigned;
    hide Signed;
    hide EncodeUnsigned;
    hide EncodeSigned;
    var a, f := EncodeUnsigned(s.attribute), EncodeUnsigned(s.form);
    var c := if s.form == IMPLICIT_CONST then EncodeSigned(s.constant) else [];
    var bytes := EncodeSpec(s) + rest;
    assert bytes == a + (f + (c + rest));
    ReadFront(s.attribute, a, f + (c + rest));
    ReadFront(s.form, f, c + rest);
    DropTwo(a, f, c + rest);
    if s.form == IMPLICIT_CONST { SignedRoundTrip(s.constant, rest); }
  }

  lemma ZerosRoundTrip(rest: seq<Byte>)
    ensures SpecAt([0, 0] + rest) == Value(Spec(0, 0, 0), 2)
    ensures Unsigned([0] + rest) == Value(0, 1)
  {
    assert EncodeUnsigned(0) == [0];
    assert [0, 0] + rest == [0] + ([0] + rest);
    ReadFront(0, [0], [0] + rest);
    ReadFront(0, [0], rest);
  }

  lemma {:induction false} SpecsRoundTrip(ss: seq<Spec>, rest: seq<Byte>)
    requires forall s <- ss :: SpecOk(s)
    ensures SpecsAt(EncodeSpecs(ss) + rest) == Value(ss, |EncodeSpecs(ss)|)
    decreases |ss|
  {
    hide SpecAt;
    hide EncodeSpec;
    if ss == [] {
      ZerosRoundTrip(rest);
    } else {
      var tail := EncodeSpecs(ss[1..]) + rest;
      assert EncodeSpecs(ss) + rest == EncodeSpec(ss[0]) + tail;
      SpecRoundTrip(ss[0], tail);
      SpecsRoundTrip(ss[1..], rest);
      assert [ss[0]] + ss[1..] == ss;
    }
  }

  lemma AbbreviationRoundTrip(a: Abbreviation, e: seq<Byte>, rest: seq<Byte>)
    requires a.tag < U64_LIMIT && forall s <- a.specs :: SpecOk(s)
    requires e == EncodeUnsigned(a.tag) + ([if a.hasChildren then 1 else 0] + EncodeSpecs(a.specs))
    ensures AbbreviationAt(e + rest) == Value(a, |e|)
  {
    hide Unsigned;
    hide SpecsAt;
    hide EncodeUnsigned;
    hide EncodeSpecs;
    var tag, flag: Byte, specs := EncodeUnsigned(a.tag), if a.hasChildren then 1 else 0, EncodeSpecs(a.specs);
    assert e + rest == tag + ([flag] + (specs + rest));
    ReadFront(a.tag, tag, [flag] + (specs + rest));
    assert (e + rest)[|tag| + 1..] == specs + rest && (e + rest)[|tag|] == flag;
    SpecsRoundTrip(a.specs, rest);
  }

  /** Parsing undoes encoding, for every table and whatever follows it, and stops right behind the terminator. */
  lemma {:induction false} TableRoundTrip(es: seq<Entry>, rest: seq<Byte>, m: map<nat, Abbreviation>)
    requires forall e <- es :: EntryOk(e)
    ensures TableAt(EncodeTable(es) + rest, m) == Value(TableOf(es, m), |EncodeTable(es)|)
    decreases |es|
  {
    hide TableAt;
    hide EncodeEntry;
    if es == [] {
      EmptyTable(rest, m);
    } else {
      var x, tail := es[0], EncodeTable(es[1..]) + rest;
      assert EntryOk(x);
      assert EncodeTable(es) + rest == EncodeEntry(x) + tail;
      FirstEntry(x, tail, m);
      TableRoundTrip(es[1..], rest, m[x.code := x.abbreviation]);
    }
  }

  lemma EmptyTable(rest: seq<Byte>, m: map<nat, Abbreviation>)
    ensures TableAt([0] + rest, m) == Value(m, 1)
  {
    hide Unsigned;
    ZerosRoundTrip(rest);
  }

  /** Parsing takes the first entry off the bytes. */
  lemma FirstEntry(x: Entry, tail: seq<Byte>, m: map<nat, Abbreviation>)
    requires EntryOk(x)
    ensures TableAt(EncodeEntry(x) + tail, m)
      == Later(TableAt(tail, m[x.code := x.abbreviation]), |EncodeEntry(x)|)
  {
    hide Unsigned;
    hide AbbreviationAt;
    hide EncodeUnsigned;
    hide EncodeSpecs;
    var code := EncodeUnsigned(x.code);
    var body := EncodeUnsigned(x.abbreviation.tag)
      + ([if x.abbreviation.hasChildren then 1 else 0] + EncodeSpecs(x.abbreviation.specs));
    assert EncodeEntry(x) + tail == code + (body + tail);
    ReadFront(x.code, code, body + tail);
    AbbreviationRoundTrip(x.abbreviation, body, tail);
    DropTwo(code, body, tail);
  }

  // ---------------------------------------------------------------- the parser

  /** `parse_attribute_specs`; `ok` is false when an assertion on running out of bytes fires. */
  method ParseSpecs(reader: Reader) returns (specs: seq<Spec>, ok: bool)
    requires reader.Valid()
    modifies reader
    ensures reader.Valid()
    ensures match SpecsAt(reader.source[old(reader.offset)..])
      case Failed => !ok
      case Value(ss, n) => ok && specs == ss && reader.offset == old(reader.offset) + n
  {
    hide SpecAt;
    specs, ok := [], true;
    ghost var start, bytes := reader.offset, reader.source[reader.offset..];
    PrefixedNone(SpecsAt(bytes));
    while true
      invariant reader.Valid() && start <= reader.offset && ok
      invariant SpecsAt(bytes) == Prefixed(specs, Later(SpecsAt(reader.source[reader.offset..]), reader.offset - start))
      decreases |reader.source| - reader.offset
    {
      ghost var at, before := reader.offset, specs;
      var s;
      s, ok := ReadSpec(reader);
      if !ok { return; }
      assert reader.source[at..][reader.offset - at..] == reader.source[reader.offset..];
      if s.attribute == 0 && s.form == 0 { return; }
      specs := specs + [s];
      PrefixedMore(before, s, SpecsAt(reader.source[reader.offset..]), at - start, reader.offset - at);
    }
  }

  lemma PrefixedNone(r: Read<seq<Spec>>)
    ensures Prefixed([], Later(r, 0)) == r
  {
    if r.Value? { assert [] + r.value == r.value; }
  }

  lemma PrefixedMore(before: seq<Spec>, s: Spec, r: Read<seq<Spec>>, n: nat, k: nat)
    ensures r.Value? ==>
      Prefixed(before, Later(Value([s] + r.value, k + r.length), n)) == Prefixed(before + [s], Later(r, n + k))
  {
    if r.Value? { assert before + ([s] + r.value) == before + [s] + r.value; }
  }

  function Prefixed(before: seq<Spec>, r: Read<seq<Spec>>): Read<seq<Spec>> {
    match r
    case Failed => Failed
    case Value(ss, n) => Value(before + ss, n)
  }

  method ReadSpec(reader: Reader) returns (s: Spec, ok: bool)
    requires reader.Valid()
    modifies reader
    ensures reader.Valid()
    ensures match SpecAt(reader.source[old(reader.offset)..])
      case Failed => !ok
      case Value(x, n) => ok && s == x && reader.offset == old(reader.offset) + n
  {
    hide Unsigned;
    hide Signed;
    ghost var start, bytes := reader.offset, reader.source[reader.offset..];
    s := Spec(0, 0, 0);
    var attribute, form, constant;
    attribute, ok := reader.ReadUnsigned();
    if !ok { return; }
    assert bytes[reader.offset - start..] == reader.source[reader.offset..];
    form, ok := reader.ReadUnsigned();
    if !ok { return; }
    assert bytes[reader.offset - start..] == reader.source[reader.offset..];
    constant := 0;
    if form == IMPLICIT_CONST {
      constant, ok := reader.ReadSigned();
      if !ok { return; }
    }
    s := Spec(attribute, form, constant);
  }

  /** `parse_abbreviations`. */
  method ParseTable(reader: Reader) returns (table: map<nat, Abbreviation>, ok: bool)
    requires reader.Valid()
    modifies reader
    ensures reader.Valid()
    ensures match TableAt(reader.source[old(reader.offset)..], map[])
      case Failed => !ok
      case Value(m, n) => ok && table == m && reader.offset == old(reader.offset) + n
  {
    hide AbbreviationAt;
    hide Unsigned;
    hide TableAt;
    table, ok := map[], true;
    ghost var start, bytes := reader.offset, reader.source[reader.offset..];
    while true
      invariant reader.Valid() && start <= reader.offset && ok
      invariant TableAt(bytes, map[]) == Later(TableAt(reader.source[reader.offset..], table), reader.offset - start)
      decreases |reader.source| - reader.offset
    {
      ghost var at := reader.offset;
      LengthPositive(reader.source[at..]);
      TableStep(reader.source[at..], table);
      var code, a;
      code, ok := reader.ReadUnsigned();
      if !ok || code == 0 { return; }
      assert reader.source[at..][reader.offset - at..] == reader.source[reader.offset..];
      a, ok := ReadAbbreviation(reader);
      if !ok { return; }
      assert reader.source[at..][reader.offset - at..] == reader.source[reader.offset..];
      table := table[code := a];
    }
  }

  lemma TableStep(bytes: seq<Byte>, m: map<nat, Abbreviation>)
    ensures match Unsigned(bytes)
      case Failed => TableAt(bytes, m) == Failed
      case Value(code, n) =>
        n <= |bytes|
        && if code == 0 then TableAt(bytes, m) == Value(m, n)
           else
             match AbbreviationAt(bytes[n..])
             case Failed => TableAt(bytes, m) == Failed
             case Value(a, k) => TableAt(bytes, m) == Later(TableAt(bytes[n..][k..], m[code := a]), n + k)
  {
    hide Unsigned;
    hide AbbreviationAt;
    LengthPositive(bytes);
    if Unsigned(bytes).Value? && AbbreviationAt(bytes[Unsigned(bytes).length..]).Value? {
      var n := Unsigned(bytes).length;
      assert bytes[n..][AbbreviationAt(bytes[n..]).length..] == bytes[n + AbbreviationAt(bytes[n..]).length..];
    }
  }

  lemma LengthPositive(bytes: seq<Byte>)
    ensures Unsigned(bytes).Value? ==> 0 < Unsigned(bytes).length <= |bytes|
  {}

  method ReadAbbreviation(reader: Reader) returns (a: Abbreviation, ok: bool)
    requires reader.Valid()
    modifies reader
    ensures reader.Valid()
    ensures match AbbreviationAt(reader.source[old(reader.offset)..])
      case Failed => !ok
      case Value(x, n) => ok && a == x && reader.offset == old(reader.offset) + n
  {
    hide Unsigned;
    hide SpecsAt;
    ghost var start, bytes := reader.offset, reader.source[reader.offset..];
    LengthPositive(bytes);
    a := Abbreviation(0, false, []);
    var tag, hasChildren, specs;
    tag, ok := reader.ReadUnsigned();
    if !ok { return; }
    hasChildren, ok := reader.ReadBool();
    if !ok { return; }
    assert bytes[reader.offset - start..] == reader.source[reader.offset..];
    specs, ok := ParseSpecs(reader);
    a := Abbreviation(tag, hasChildren, specs);
  }

  const EXAMPLE: seq<Entry> := [
    Entry(1, Abbreviation(0x11, true, [Spec(0x03, 0x08, 0)])),
    Entry(2, Abbreviation(0x34, false, [Spec(0x3A, 0x21, -2), Spec(0x49, 0x13, 0)]))]

  /** A table by hand: a compile unit with children and a name, and a variable whose file is an implicit constant. */
  lemma ExampleTable()
    ensures TableAt([1, 0x11, 1, 0x03, 0x08, 0, 0, 2, 0x34, 0, 0x3A, 0x21, 0x7E, 0x49, 0x13, 0, 0, 0], map[]) ==
      Value(map[1 := EXAMPLE[0].abbreviation, 2 := EXAMPLE[1].abbreviation], 18)
  {
    hide EncodeTable;
    hide EncodeEntry;
    hide TableAt;
    hide TableOf;
    FirstEntryBytes();
    SecondEntryBytes();
    ExampleTableOf();
    ExampleOk();
    TwoEntries(EXAMPLE[0], EXAMPLE[1]);
    TableRoundTrip(EXAMPLE, [], map[]);
    assert EncodeTable(EXAMPLE) + [] ==
      [1, 0x11, 1, 0x03, 0x08, 0, 0, 2, 0x34, 0, 0x3A, 0x21, 0x7E, 0x49, 0x13, 0, 0, 0];
  }

  lemma FirstEntryBytes()
    ensures EncodeEntry(EXAMPLE[0]) == [1, 0x11, 1, 0x03, 0x08, 0, 0]
  {
    OneSpec(Spec(0x03, 0x08, 0), []);
    assert EncodeSpecs(EXAMPLE[0].abbreviation.specs) == [0x03, 0x08, 0, 0];
  }

  lemma SecondEntryBytes()
    ensures EncodeEntry(EXAMPLE[1]) == [2, 0x34, 0, 0x3A, 0x21, 0x7E, 0x49, 0x13, 0, 0]
  {
    hide EncodeSpecs;
    OneSpec(Spec(0x49, 0x13, 0), []);
    OneSpec(Spec(0x3A, 0x21, -2), [Spec(0x49, 0x13, 0)]);
    NoSpecs();
    assert EncodeSpec(Spec(0x3A, 0x21, -2)) == [0x3A, 0x21, 0x7E] && EncodeSpec(Spec(0x49, 0x13, 0)) == [0x49, 0x13];
    assert [Spec(0x49, 0x13, 0)] + [] == [Spec(0x49, 0x13, 0)];
    assert EXAMPLE[1].abbreviation.specs == [Spec(0x3A, 0x21, -2)] + [Spec(0x49, 0x13, 0)];
  }

  lemma NoSpecs()
    ensures EncodeSpecs([]) == [0, 0]
  {}

  lemma TwoEntries(e: Entry, f: Entry)
    ensures EncodeTable([e, f]) == EncodeEntry(e) + (EncodeEntry(f) + [0])
  {
    hide EncodeEntry;
    assert [e, f][1..] == [f] && [f][1..] == [];
    assert EncodeTable([f]) == EncodeEntry(f) + EncodeTable([]);
  }

  lemma ExampleTableOf()
    ensures TableOf(EXAMPLE, map[]) == map[1 := EXAMPLE[0].abbreviation, 2 := EXAMPLE[1].abbreviation]
  {
    assert EXAMPLE[1..] == [EXAMPLE[1]] && EXAMPLE[1..][1..] == [];
  }

  lemma ExampleOk()
    ensures forall e <- EXAMPLE :: EntryOk(e)
  {}

  lemma OneSpec(s: Spec, ss: seq<Spec>)
    ensures EncodeSpecs([s] + ss) == EncodeSpec(s) + EncodeSpecs(ss)
  {
    assert ([s] + ss)[1..] == ss;
  }
}
