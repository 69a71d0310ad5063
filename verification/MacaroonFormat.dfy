/** The binary format of macaroons (macaroon/serialize.go). */
module MacaroonFormat {
  import opened Prelude
  import opened Macaroons

  const EOS := 0
  const LOCATION := 1
  const IDENTIFIER := 2
  const VERIFICATION_ID := 4
  const SIGNATURE := 6
  const VERSION: byte := 2
  const MAX_LENGTH := 0x7fffffff
  const MAX_VARINT_LEN64 := 10
  const TAIL_LENGTH := 32

  datatype Packet = Packet(fieldType: nat, data: Bytes)

  datatype ParseError =
    | EmptyMacaroon
    | InvalidVersion
    | VarintError
    | OutOfBounds
    | SectionTooLong
    | FieldsOutOfOrder
    | InvalidHeader
    | NoIdentifier
    | ExtraFields
    | InvalidField
    | NoSignature
    | SignatureLength

  /** A parsed value and the data left over. */
  datatype Parsed<T> = Parsed(rest: Bytes, value: T)

  type ParseResult<T> = Result<Parsed<T>, ParseError>

  // ---------- varints (encoding/binary) ----------

  function PutUvarint(x: nat): (r: Bytes)
    ensures |r| >= 1
  {
    if x < 128 then [x as byte] else [(x % 128 + 128) as byte] + PutUvarint(x / 128)
  }

  /** binary.Uvarint from byte `i` of the varint on. */
  function Uvarint(data: Bytes, i: nat): (r: Option<Parsed<nat>>)
    ensures r.Some? ==> |r.value.rest| < |data|
    decreases |data|
  {
    if data == [] || i >= MAX_VARINT_LEN64 then None
    else if data[0] < 128 then
      if i == MAX_VARINT_LEN64 - 1 && data[0] > 1 then None else Some(Parsed(data[1..], data[0]))
    else
      match Uvarint(data[1..], i + 1)
      case None => None
      case Some(p) => Some(Parsed(p.rest, data[0] as int - 128 + 128 * p.value))
  }

  function ParseVarint(data: Bytes): (r: ParseResult<nat>)
    ensures r.Ok? ==> |r.value.rest| < |data|
  {
    match Uvarint(data, 0)
    case None => Err(VarintError)
    case Some(p) => if p.value > MAX_LENGTH then Err(VarintError) else Ok(p)
  }

  function Pow128(n: nat): (r: nat)
    ensures r >= 1
  {
    if n == 0 then 1 else 128 * Pow128(n - 1)
  }

  lemma {:induction false} UvarintUndoesPut(x: nat, rest: Bytes, i: nat, digits: nat)
    requires x < Pow128(digits) && i + digits < MAX_VARINT_LEN64
    ensures Uvarint(PutUvarint(x) + rest, i) == Some(Parsed(rest, x))
    decreases digits
  {
    var data := PutUvarint(x) + rest;
    if x < 128 {
      assert data[1..] == rest;
    } else {
      UvarintUndoesPut(x / 128, rest, i + 1, digits - 1);
      assert data[1..] == PutUvarint(x / 128) + rest;
    }
  }

  lemma ParseVarintUndoesPut(x: nat, rest: Bytes)
    requires x <= MAX_LENGTH
    ensures ParseVarint(PutUvarint(x) + rest) == Ok(Parsed(rest, x))
  {
    assert Pow128(5) == 128 * (128 * (128 * (128 * 128))) by {
      assert Pow128(2) == 128 * 128 && Pow128(3) == 128 * Pow128(2) && Pow128(4) == 128 * Pow128(3);
    }
    UvarintUndoesPut(x, rest, 0, 5);
  }

  // ---------- packets and sections ----------

  function SerializePacket(p: Packet): Bytes {
    PutUvarint(p.fieldType) + PutUvarint(|p.data|) + p.data
  }

  function ParsePacket(data: Bytes): (r: ParseResult<Packet>)
    ensures r.Ok? ==> |r.value.rest| < |data|
  {
    match ParseVarint(data)
    case Err(e) => Err(e)
    case Ok(ft) =>
      if ft.value == EOS then Ok(Parsed(ft.rest, Packet(EOS, [])))
      else
        match ParseVarint(ft.rest)
        case Err(e) => Err(e)
        case Ok(len) =>
          if len.value > |len.rest| then Err(OutOfBounds)
          else Ok(Parsed(len.rest[len.value..], Packet(ft.value, len.rest[..len.value])))
  }

  /** The packets up to the end-of-section mark, which must have increasing types. */
  function ParseSection(data: Bytes, prevFieldType: int): (r: ParseResult<seq<Packet>>)
    ensures r.Ok? ==> |r.value.rest| < |data|
    decreases |data|
  {
    if data == [] then Err(SectionTooLong)
    else
      match ParsePacket(data)
      case Err(e) => Err(e)
      case Ok(p) =>
        if p.value.fieldType == EOS then Ok(Parsed(p.rest, []))
        else if p.value.fieldType <= prevFieldType then Err(FieldsOutOfOrder)
        else
          match ParseSection(p.rest, p.value.fieldType)
          case Err(e) => Err(e)
          case Ok(s) => Ok(Parsed(s.rest, [p.value] + s.value))
  }

  function WithoutLocation(section: seq<Packet>): seq<Packet> {
    if section != [] && section[0].fieldType == LOCATION then section[1..] else section
  }

  /** The caveat in a non-empty section. */
  function CaveatOf(whole: seq<Packet>): Result<Bytes, ParseError> {
    var section := WithoutLocation(whole);
    if section == [] || section[0].fieldType != IDENTIFIER then Err(NoIdentifier)
    else if |section| == 1 then Ok(section[0].data)
    else if |section| != 2 then Err(ExtraFields)
    else if section[1].fieldType != VERIFICATION_ID then Err(InvalidField)
    else Ok(section[0].data)
  }

  function ParseCaveats(data: Bytes): (r: ParseResult<seq<Bytes>>)
    ensures r.Ok? ==> |r.value.rest| < |data|
    decreases |data|
  {
    match ParseSection(data, -1)
    case Err(e) => Err(e)
    case Ok(s) =>
      if s.value == [] then Ok(Parsed(s.rest, []))
      else
        match CaveatOf(s.value)
        case Err(e) => Err(e)
        case Ok(cav) =>
          match ParseCaveats(s.rest)
          case Err(e) => Err(e)
          case Ok(more) => Ok(Parsed(more.rest, [cav] + more.value))
  }

  function ParseTail(data: Bytes): Result<Bytes, ParseError> {
    match ParsePacket(data)
    case Err(e) => Err(e)
    case Ok(sig) =>
      if sig.value.fieldType != SIGNATURE then Err(NoSignature)
      else if |sig.value.data| != TAIL_LENGTH then Err(SignatureLength)
      else Ok(sig.value.data)
  }

  function ParseBody(data: Bytes): Result<Macaroon, ParseError> {
    match ParseSection(data, -1)
    case Err(e) => Err(e)
    case Ok(header) =>
      var section := WithoutLocation(header.value);
      if |section| != 1 || section[0].fieldType != IDENTIFIER then Err(InvalidHeader)
      else
        match ParseCaveats(header.rest)
        case Err(e) => Err(e)
        case Ok(caveats) =>
          match ParseTail(caveats.rest)
          case Err(e) => Err(e)
          case Ok(tail) => Ok(Macaroon(section[0].data, caveats.value, tail))
  }

  function ParseMacaroon(data: Bytes): Result<Macaroon, ParseError> {
    if |data| < 2 then Err(EmptyMacaroon)
    else if data[0] != VERSION then Err(InvalidVersion)
    else ParseBody(data[1..])
  }

  function SerializeCaveats(caveats: seq<Bytes>): Bytes {
    if caveats == [] then [] else SerializePacket(Packet(IDENTIFIER, caveats[0])) + [0] + SerializeCaveats(caveats[1..])
  }

  function Serialize(m: Macaroon): Bytes {
    [VERSION] + (SerializePacket(Packet(IDENTIFIER, m.head)) + [0] +
      (SerializeCaveats(m.caveats) + [0] + SerializePacket(Packet(SIGNATURE, m.tail))))
  }

  // ---------- the parser undoes the printer ----------

  lemma ParsePacketUndoes(p: Packet, rest: Bytes)
    requires 0 < p.fieldType <= MAX_LENGTH && |p.data| <= MAX_LENGTH
    ensures ParsePacket(SerializePacket(p) + rest) == Ok(Parsed(rest, p))
  {
    var body := PutUvarint(|p.data|) + (p.data + rest);
    assert SerializePacket(p) + rest == PutUvarint(p.fieldType) + body;
    ParseVarintUndoesPut(p.fieldType, body);
    ParseVarintUndoesPut(|p.data|, p.data + rest);
  }

  lemma ParseEnd(rest: Bytes, prev: int)
    ensures ParseSection([0] + rest, prev) == Ok(Parsed(rest, []))
  {
    var data := [0] + rest;
    assert PutUvarint(0) + rest == data;
    ParseVarintUndoesPut(0, rest);
  }

  /** A section that holds one identifier packet, even an empty one, is not the empty section. */
  lemma ParseIdentifierSection(data: Bytes, rest: Bytes)
    requires |data| <= MAX_LENGTH
    ensures ParseSection(SerializePacket(Packet(IDENTIFIER, data)) + [0] + rest, -1) ==
            Ok(Parsed(rest, [Packet(IDENTIFIER, data)]))
  {
    var p := Packet(IDENTIFIER, data);
    assert SerializePacket(p) + [0] + rest == SerializePacket(p) + ([0] + rest);
    ParsePacketUndoes(p, [0] + rest);
    ParseEnd(rest, IDENTIFIER);
    assert [p] + [] == [p];
  }

  lemma {:induction false} ParseCaveatsUndoes(caveats: seq<Bytes>, rest: Bytes)
    requires forall i :: 0 <= i < |caveats| ==> |caveats[i]| <= MAX_LENGTH
    ensures ParseCaveats(SerializeCaveats(caveats) + [0] + rest) == Ok(Parsed(rest, caveats))
    decreases caveats
  {
    if caveats == [] {
      assert SerializeCaveats(caveats) + [0] + rest == [0] + rest;
      ParseEnd(rest, -1);
    } else {
      hide SerializePacket, ParseSection;
      var more := SerializeCaveats(caveats[1..]) + [0] + rest;
      var first := SerializePacket(Packet(IDENTIFIER, caveats[0]));
      assert SerializeCaveats(caveats) + [0] + rest == first + [0] + more;
      ParseIdentifierSection(caveats[0], more);
      ParseCaveatsUndoes(caveats[1..], rest);
      assert [caveats[0]] + caveats[1..] == caveats;
    }
  }

  /** The parser undoes the printer exactly for the macaroons whose tail has the MAC length. */
  lemma ParseUndoesSerialize(m: Macaroon)
    requires |m.head| <= MAX_LENGTH && |m.tail| <= MAX_LENGTH
    requires forall i :: 0 <= i < |m.caveats| ==> |m.caveats[i]| <= MAX_LENGTH
    ensures ParseMacaroon(Serialize(m)) == if |m.tail| == TAIL_LENGTH then Ok(m) else Err(SignatureLength)
  {
    hide SerializePacket, SerializeCaveats, ParseSection, ParseCaveats, ParsePacket;
    var tail := SerializePacket(Packet(SIGNATURE, m.tail));
    var caveats := SerializeCaveats(m.caveats) + [0] + tail;
    var body := SerializePacket(Packet(IDENTIFIER, m.head)) + [0] + caveats;
    assert Serialize(m)[1..] == body && Serialize(m)[0] == VERSION;
    ParseIdentifierSection(m.head, caveats);
    ParseCaveatsUndoes(m.caveats, tail);
    ParsePacketUndoes(Packet(SIGNATURE, m.tail), []);
    assert tail + [] == tail;
  }

  // ---------- the bytes ----------

  /** Lengths below 128 take one byte, and lengths below 16384 two, the low seven bits first. */
  lemma ShortVarints(x: nat)
    ensures x < 128 ==> PutUvarint(x) == [x]
    ensures 128 <= x < 16384 ==> PutUvarint(x) == [x % 128 + 128, x / 128]
  {
  }

  /** The caveats in short form: an identifier field and the end of its section each. */
  function ShortCaveats(caveats: seq<Bytes>): Bytes
    requires forall i :: 0 <= i < |caveats| ==> |caveats[i]| < 128
  {
    if caveats == [] then [] else [2, |caveats[0]|] + caveats[0] + [0] + ShortCaveats(caveats[1..])
  }

  lemma {:induction false} ShortCaveatsAre(caveats: seq<Bytes>)
    requires forall i :: 0 <= i < |caveats| ==> |caveats[i]| < 128
    ensures SerializeCaveats(caveats) == ShortCaveats(caveats)
    decreases caveats
  {
    if caveats != [] {
      ShortCaveatsAre(caveats[1..]);
      ShortPacket(IDENTIFIER, caveats[0]);
    }
  }

  lemma ShortPacket(fieldType: nat, data: Bytes)
    requires fieldType < 128 && |data| < 128
    ensures SerializePacket(Packet(fieldType, data)) == [fieldType, |data|] + data
  {
    assert PutUvarint(fieldType) + PutUvarint(|data|) == [fieldType, |data|];
  }

  /** Version 2, the head as field 2, the end of the section, the caveats, an empty section, and the tail as
      field 6. */
  lemma SerializedBytes(m: Macaroon)
    requires |m.head| < 128 && |m.tail| < 128 && forall i :: 0 <= i < |m.caveats| ==> |m.caveats[i]| < 128
    ensures Serialize(m) == [2] + ([2, |m.head|] + m.head + [0] + (ShortCaveats(m.caveats) + [0] + ([6, |m.tail|] + m.tail)))
  {
    ShortCaveatsAre(m.caveats);
    ShortPacket(IDENTIFIER, m.head);
    ShortPacket(SIGNATURE, m.tail);
  }

  // ---------- what the section parser accepts ----------

  /** The packets one after the other, up to the end mark. */
  ghost predicate ReadsAs(data: Bytes, packets: seq<Packet>, rest: Bytes)
    decreases packets
  {
    var p := ParsePacket(data);
    p.Ok? &&
    if packets == [] then p.value.value.fieldType == 0 && p.value.rest == rest
    else p.value.value.fieldType != 0 && p.value.value == packets[0] && ReadsAs(p.value.rest, packets[1..], rest)
  }

  ghost predicate Rising(prev: int, packets: seq<Packet>) {
    && (forall i :: 0 <= i < |packets| ==> prev < packets[i].fieldType)
    && (forall i, j :: 0 <= i < j < |packets| ==> packets[i].fieldType < packets[j].fieldType)
  }

  /** A section is accepted exactly when it reads as packets whose types rise strictly. */
  lemma {:induction false} SectionAccepted(data: Bytes, prev: int, packets: seq<Packet>, rest: Bytes)
    ensures ParseSection(data, prev) == Ok(Parsed(rest, packets)) <==> ReadsAs(data, packets, rest) && Rising(prev, packets)
    decreases |data|
  {
    hide SerializePacket, PutUvarint, ParseVarint, Uvarint;
    EmptyPacket();
    var p := ParsePacket(data);
    if data != [] && p.Ok? && p.value.value.fieldType != 0 {
      var first := p.value.value;
      if packets != [] {
        SectionAccepted(p.value.rest, first.fieldType, packets[1..], rest);
        if packets[0] == first {
          RisingCons(prev, packets);
          assert packets == [packets[0]] + packets[1..];
        }
      }
    }
  }

  lemma EmptyPacket()
    ensures ParsePacket([]).Err?
  {
  }

  lemma RisingCons(prev: int, packets: seq<Packet>)
    requires packets != []
    ensures Rising(prev, packets) <==> prev < packets[0].fieldType && Rising(packets[0].fieldType, packets[1..])
  {
    var rest := packets[1..];
    assert forall i :: 0 < i < |packets| ==> packets[i] == rest[i - 1];
    if prev < packets[0].fieldType && Rising(packets[0].fieldType, rest) {
      forall i, j | 0 <= i < j < |packets|
        ensures packets[i].fieldType < packets[j].fieldType
      {
        assert packets[j] == rest[j - 1];
      }
    }
    if Rising(prev, packets) {
      assert forall i :: 0 <= i < |rest| ==> rest[i] == packets[i + 1];
    }
  }

  /** After an optional location (field 1), a caveat is an identifier (field 2), alone or with a verification
      id (field 4). */
  ghost predicate IsCaveat(section: seq<Packet>, c: Bytes) {
    var s := if section != [] && section[0].fieldType == 1 then section[1..] else section;
    s == [Packet(2, c)] || (|s| == 2 && s[0] == Packet(2, c) && s[1].fieldType == 4)
  }

  lemma CaveatAccepted(section: seq<Packet>, c: Bytes)
    ensures CaveatOf(section) == Ok(c) <==> IsCaveat(section, c)
  {
  }

  ghost predicate IsSection(data: Bytes, section: seq<Packet>, rest: Bytes) {
    ReadsAs(data, section, rest) && Rising(-1, section)
  }

  /** The sections of the caveats one after the other, up to an empty section. */
  ghost predicate CaveatsReadAs(data: Bytes, caveats: seq<Bytes>, rest: Bytes)
    decreases caveats
  {
    if caveats == [] then IsSection(data, [], rest)
    else exists section, more :: IsSection(data, section, more) && section != [] && IsCaveat(section, caveats[0])
                                 && CaveatsReadAs(more, caveats[1..], rest)
  }

  lemma {:induction false} CaveatsAccepted(data: Bytes, caveats: seq<Bytes>, rest: Bytes)
    ensures ParseCaveats(data) == Ok(Parsed(rest, caveats)) <==> CaveatsReadAs(data, caveats, rest)
    decreases |caveats|
  {
    hide ParseSection, CaveatOf, IsCaveat, IsSection;
    var parsed := ParseSection(data, -1);
    forall section, more
      ensures IsSection(data, section, more) <==> parsed == Ok(Parsed(more, section))
    {
      SectionIs(data, section, more);
    }
    if caveats != [] {
      if parsed.Ok? {
        CaveatsAccepted(parsed.value.rest, caveats[1..], rest);
        CaveatAccepted(parsed.value.value, caveats[0]);
        assert caveats == [caveats[0]] + caveats[1..];
      }
    }
  }

  lemma SectionIs(data: Bytes, section: seq<Packet>, rest: Bytes)
    ensures IsSection(data, section, rest) <==> ParseSection(data, -1) == Ok(Parsed(rest, section))
  {
    SectionAccepted(data, -1, section, rest);
  }

  /** The whole grammar: exactly these bytes are accepted, and what follows the tail is ignored. */
  ghost predicate ReadsAsMacaroon(data: Bytes, m: Macaroon, header: seq<Packet>, afterHeader: Bytes, afterCaveats: Bytes, ignored: Bytes) {
    && |data| >= 2 && data[0] == 2
    && IsSection(data[1..], header, afterHeader)
    && (header == [Packet(2, m.head)] || (|header| == 2 && header[0].fieldType == 1 && header[1] == Packet(2, m.head)))
    && CaveatsReadAs(afterHeader, m.caveats, afterCaveats)
    && ParsePacket(afterCaveats) == Ok(Parsed(ignored, Packet(6, m.tail))) && |m.tail| == 32
  }

  lemma MacaroonAccepted(data: Bytes, m: Macaroon)
    ensures ParseMacaroon(data) == Ok(m) <==>
              exists header, afterHeader, afterCaveats, ignored ::
                ReadsAsMacaroon(data, m, header, afterHeader, afterCaveats, ignored)
  {
    hide ParseSection, ParseCaveats, IsSection, CaveatsReadAs, ParsePacket;
    if ParseMacaroon(data) == Ok(m) {
      var header := ParseSection(data[1..], -1).value;
      var caveats := ParseCaveats(header.rest).value;
      SectionIs(data[1..], header.value, header.rest);
      CaveatsAccepted(header.rest, m.caveats, caveats.rest);
      assert ReadsAsMacaroon(data, m, header.value, header.rest, caveats.rest, ParsePacket(caveats.rest).value.rest);
    }
    if header, afterHeader, afterCaveats, ignored :| ReadsAsMacaroon(data, m, header, afterHeader, afterCaveats, ignored) {
      SectionIs(data[1..], header, afterHeader);
      CaveatsAccepted(afterHeader, m.caveats, afterCaveats);
    }
  }

  // ---------- which macaroons can be read back ----------

  /** Every length is within the limit of the format, and the tail has the MAC length. */
  predicate Readable(m: Macaroon) {
    && |m.head| <= MAX_LENGTH && |m.tail| == TAIL_LENGTH
    && forall i :: 0 <= i < |m.caveats| ==> |m.caveats[i]| <= MAX_LENGTH
  }

  lemma {:induction false} UvarintOfPut(x: nat, rest: Bytes, i: nat)
    ensures Uvarint(PutUvarint(x) + rest, i).Some? ==> Uvarint(PutUvarint(x) + rest, i) == Some(Parsed(rest, x))
    decreases x
  {
    var data := PutUvarint(x) + rest;
    if x < 128 {
      assert data[1..] == rest;
    } else {
      UvarintOfPut(x / 128, rest, i + 1);
      assert data[1..] == PutUvarint(x / 128) + rest;
    }
  }

  lemma ParsePacketTooLong(p: Packet, rest: Bytes)
    requires 0 < p.fieldType <= MAX_LENGTH && |p.data| > MAX_LENGTH
    ensures ParsePacket(SerializePacket(p) + rest).Err?
  {
    var body := PutUvarint(|p.data|) + (p.data + rest);
    assert SerializePacket(p) + rest == PutUvarint(p.fieldType) + body;
    ParseVarintUndoesPut(p.fieldType, body);
    UvarintOfPut(|p.data|, p.data + rest, 0);
  }

  lemma ParseSectionTooLong(data: Bytes, rest: Bytes)
    requires |data| > MAX_LENGTH
    ensures ParseSection(SerializePacket(Packet(IDENTIFIER, data)) + [0] + rest, -1).Err?
  {
    var p := Packet(IDENTIFIER, data);
    assert SerializePacket(p) + [0] + rest == SerializePacket(p) + ([0] + rest);
    ParsePacketTooLong(p, [0] + rest);
  }

  lemma {:induction false} ParseCaveatsTooLong(caveats: seq<Bytes>, rest: Bytes, i: nat)
    requires i < |caveats| && |caveats[i]| > MAX_LENGTH
    ensures ParseCaveats(SerializeCaveats(caveats) + [0] + rest).Err?
    decreases i
  {
    hide SerializePacket, ParseSection;
    var more := SerializeCaveats(caveats[1..]) + [0] + rest;
    var first := SerializePacket(Packet(IDENTIFIER, caveats[0]));
    assert SerializeCaveats(caveats) + [0] + rest == first + [0] + more;
    if |caveats[0]| > MAX_LENGTH {
      ParseSectionTooLong(caveats[0], more);
    } else {
      ParseIdentifierSection(caveats[0], more);
      ParseCaveatsTooLong(caveats[1..], rest, i - 1);
    }
  }

  /** For every macaroon whatever: it can be read back exactly when it is readable, and then it is the
      same. */
  lemma ReadsBackExactly(m: Macaroon)
    ensures ParseMacaroon(Serialize(m)).Ok? <==> Readable(m)
    ensures Readable(m) ==> ParseMacaroon(Serialize(m)) == Ok(m)
    ensures Readable(m) <==>
              |m.head| <= 0x7fff_ffff && |m.tail| == 32 && forall i :: 0 <= i < |m.caveats| ==> |m.caveats[i]| <= 0x7fff_ffff
  {
    hide SerializePacket, SerializeCaveats, ParseSection, ParseCaveats, ParsePacket;
    var tail := SerializePacket(Packet(SIGNATURE, m.tail));
    var caveats := SerializeCaveats(m.caveats) + [0] + tail;
    assert Serialize(m)[1..] == SerializePacket(Packet(IDENTIFIER, m.head)) + [0] + caveats;
    if |m.head| > MAX_LENGTH {
      ParseSectionTooLong(m.head, caveats);
    } else if i :| 0 <= i < |m.caveats| && |m.caveats[i]| > MAX_LENGTH {
      ParseIdentifierSection(m.head, caveats);
      ParseCaveatsTooLong(m.caveats, tail, i);
    } else if |m.tail| > MAX_LENGTH {
      ParseIdentifierSection(m.head, caveats);
      ParseCaveatsUndoes(m.caveats, tail);
      ParsePacketTooLong(Packet(SIGNATURE, m.tail), []);
      assert tail + [] == tail;
    } else {
      ParseUndoesSerialize(m);
    }
  }

  // ---------- the code ----------

  lemma {:induction false} SerializeCaveatsAppend(caveats: seq<Bytes>, c: Bytes)
    ensures SerializeCaveats(caveats + [c]) == SerializeCaveats(caveats) + (SerializePacket(Packet(IDENTIFIER, c)) + [0])
    decreases caveats
  {
    if caveats == [] {
      assert [c][1..] == [];
      assert SerializeCaveats([c]) == SerializePacket(Packet(IDENTIFIER, c)) + [0] + SerializeCaveats([]);
    } else {
      assert (caveats + [c])[1..] == caveats[1..] + [c];
      SerializeCaveatsAppend(caveats[1..], c);
    }
  }

  lemma SerializeCaveatsOfNone()
    ensures SerializeCaveats([]) == []
  {
  }

  lemma Regroup(a: Bytes, b: Bytes, c: Bytes)
    ensures a + b + c + [0] == a + (b + (c + [0]))
  {
  }

  lemma RegroupAll(a: Bytes, b: Bytes, c: Bytes, d: Bytes)
    ensures a + b + c + [0] + d == a + (b + (c + [0] + d))
  {
  }

  method SerializeMacaroon(m: Macaroon) returns (data: Bytes)
    ensures data == Serialize(m)
  {
    hide SerializePacket, SerializeCaveats;
    data := [VERSION];
    data := data + SerializePacket(Packet(IDENTIFIER, m.head));
    data := data + [0];
    SerializeCaveatsOfNone();
    ghost var header := SerializePacket(Packet(IDENTIFIER, m.head)) + [0];
    assert data == [VERSION] + header;
    for i := 0 to |m.caveats|
      invariant data == [VERSION] + header + SerializeCaveats(m.caveats[..i])
    {
      var caveat := SerializePacket(Packet(IDENTIFIER, m.caveats[i]));
      SerializeCaveatsAppend(m.caveats[..i], m.caveats[i]);
      assert m.caveats[..i + 1] == m.caveats[..i] + [m.caveats[i]];
      Regroup([VERSION] + header, SerializeCaveats(m.caveats[..i]), caveat);
      data := data + caveat;
      data := data + [0];
    }
    assert m.caveats[..|m.caveats|] == m.caveats;
    RegroupAll([VERSION], header, SerializeCaveats(m.caveats), SerializePacket(Packet(SIGNATURE, m.tail)));
    data := data + [0];
    data := data + SerializePacket(Packet(SIGNATURE, m.tail));
  }

  /** `whole` is what parsing `data` from the start gives when `done` has been parsed already and
      parsing the rest gives `rest`. */
  ghost predicate Continues<T>(whole: ParseResult<seq<T>>, done: seq<T>, rest: ParseResult<seq<T>>) {
    match rest
    case Err(e) => whole == Err(e)
    case Ok(p) => whole == Ok(Parsed(p.rest, done + p.value))
  }

  lemma ContinuesFromStart<T>(r: ParseResult<seq<T>>)
    ensures Continues(r, [], r)
  {
    if r.Ok? {
      assert [] + r.value.value == r.value.value;
    }
  }

  lemma ContinuesAfter<T>(whole: ParseResult<seq<T>>, done: seq<T>, t: T, rest: ParseResult<seq<T>>)
    requires Continues(whole, done, if rest.Err? then rest else Ok(Parsed(rest.value.rest, [t] + rest.value.value)))
    ensures Continues(whole, done + [t], rest)
  {
    if rest.Ok? {
      ConcatAssociative(done, [t], rest.value.value);
    }
  }

  method ParseSectionLoop(data: Bytes) returns (r: ParseResult<seq<Packet>>)
    ensures r == ParseSection(data, -1)
  {
    var rest := data;
    var prevFieldType: int := -1;
    var packets: seq<Packet> := [];
    ContinuesFromStart(ParseSection(data, -1));
    while true
      invariant Continues(ParseSection(data, -1), packets, ParseSection(rest, prevFieldType))
      decreases |rest|
    {
      if |rest| == 0 {
        return Err(SectionTooLong);
      }
      var p := ParsePacket(rest);
      if p.Err? {
        return Err(p.error);
      }
      if p.value.value.fieldType == EOS {
        assert packets + [] == packets;
        return Ok(Parsed(p.value.rest, packets));
      }
      if p.value.value.fieldType <= prevFieldType {
        return Err(FieldsOutOfOrder);
      }
      ContinuesAfter(ParseSection(data, -1), packets, p.value.value, ParseSection(p.value.rest, p.value.value.fieldType));
      packets := packets + [p.value.value];
      prevFieldType := p.value.value.fieldType;
      rest := p.value.rest;
    }
  }

  method ParseMacaroonLoop(data: Bytes) returns (r: Result<Macaroon, ParseError>)
    ensures r == ParseMacaroon(data)
  {
    if |data| < 2 {
      return Err(EmptyMacaroon);
    }
    if data[0] != VERSION {
      return Err(InvalidVersion);
    }
    var header := ParseSectionLoop(data[1..]);
    if header.Err? {
      return Err(header.error);
    }
    var section := header.value.value;
    if |section| > 0 && section[0].fieldType == LOCATION {
      section := section[1..];
    }
    if |section| != 1 || section[0].fieldType != IDENTIFIER {
      return Err(InvalidHeader);
    }
    var caveats := ParseCaveatsLoop(header.value.rest);
    if caveats.Err? {
      return Err(caveats.error);
    }
    var sig := ParsePacket(caveats.value.rest);
    if sig.Err? {
      return Err(sig.error);
    }
    if sig.value.value.fieldType != SIGNATURE {
      return Err(NoSignature);
    }
    if |sig.value.value.data| != TAIL_LENGTH {
      return Err(SignatureLength);
    }
    return Ok(Macaroon(section[0].data, caveats.value.value, sig.value.value.data));
  }

  method ParseCaveatsLoop(data: Bytes) returns (r: ParseResult<seq<Bytes>>)
    ensures r == ParseCaveats(data)
  {
    var rest := data;
    var caveats: seq<Bytes> := [];
    ContinuesFromStart(ParseCaveats(data));
    while true
      invariant Continues(ParseCaveats(data), caveats, ParseCaveats(rest))
      decreases |rest|
    {
      var s := ParseSectionLoop(rest);
      if s.Err? {
        return Err(s.error);
      }
      if |s.value.value| == 0 {
        assert caveats + [] == caveats;
        return Ok(Parsed(s.value.rest, caveats));
      }
      var cav := CaveatOf(s.value.value);
      if cav.Err? {
        return Err(cav.error);
      }
      ContinuesAfter(ParseCaveats(data), caveats, cav.value, ParseCaveats(s.value.rest));
      caveats := caveats + [cav.value];
      rest := s.value.rest;
    }
  }
}
