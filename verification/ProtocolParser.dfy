/**
 The multi-protocol parser: FIX text and the two packed binary layouts, little-endian, with the
 field order and widths of the structs. Bytes are characters below 256.
 */
module ProtocolParser {
  import opened Basics
  import opened Orders
  import opened Decimal
  import opened PriceText
  import FixParser

  datatype Protocol = Fix | Ouch | Sbe

  const PACKET_LEN: nat := 46

  // ----- Little-endian integers -----

  function Pow256(k: nat): (p: nat)
    ensures p > 0
  {
    if k == 0 then 1 else 256 * Pow256(k - 1)
  }

  /** The low `k` bytes of a number. */
  function Bytes(n: nat, k: nat): (s: string)
    ensures |s| == k
  {
    if k == 0 then "" else [(n % 256) as char] + Bytes(n / 256, k - 1)
  }

  function Number(s: string): nat {
    if s == "" then 0 else s[0] as int + 256 * Number(s[1..])
  }

  lemma {:induction false} NumberOfBytes(n: nat, k: nat)
    requires n < Pow256(k)
    ensures Number(Bytes(n, k)) == n
  {
    if k > 0 {
      NumberOfBytes(n / 256, k - 1);
    }
  }

  lemma PowersOf256()
    ensures Pow256(1) == 256 && Pow256(4) == TWO_32 && Pow256(8) == TWO_64
  {
    assert Pow256(2) == 65_536;
    assert Pow256(3) == 16_777_216;
    assert Pow256(5) == 256 * TWO_32;
    assert Pow256(6) == 65_536 * TWO_32;
    assert Pow256(7) == 16_777_216 * TWO_32;
  }

  /** Conversion of an unsigned 32-bit value to a signed one. */
  function SignedInt32(n: nat): int {
    if n % TWO_32 < 0x8000_0000 then n % TWO_32 else n % TWO_32 - TWO_32
  }

  /** Conversion of an unsigned 64-bit value to a signed one. */
  function SignedInt64(n: nat): int {
    if n % TWO_64 < TWO_63 then n % TWO_64 else n % TWO_64 - TWO_64
  }

  // ----- Padded text -----

  predicate IsPadding(c: char) {
    c == ' ' || c == '\0'
  }

  function TrimRight(s: string): (t: string)
    ensures |t| <= |s| && t == s[..|t|]
    ensures t != "" ==> !IsPadding(t[|t| - 1])
    ensures forall i :: |t| <= i < |s| ==> IsPadding(s[i])
  {
    if s == "" || !IsPadding(s[|s| - 1]) then s else TrimRight(s[..|s| - 1])
  }

  method Trim(s: string) returns (t: string)
    ensures t == TrimRight(s)
  {
    var len := |s|;
    assert s[..len] == s;
    while len > 0 && (s[len - 1] == ' ' || s[len - 1] == '\0')
      invariant len <= |s| && TrimRight(s[..len]) == TrimRight(s)
    {
      assert s[..len][..len - 1] == s[..len - 1];
      len := len - 1;
    }
    t := s[..len];
  }

  /** Text padded with spaces to a fixed width. */
  function PadTo(s: string, width: nat): (t: string)
    requires |s| <= width
    ensures |t| == width
  {
    s + seq(width - |s|, _ => ' ')
  }

  /** Trimming undoes padding, by spaces or NULs, for text that does not itself end in padding. */
  lemma TrimPadded(s: string, pad: string)
    requires s != "" ==> s[|s| - 1] != ' ' && s[|s| - 1] != '\0'
    requires forall k :: 0 <= k < |pad| ==> pad[k] == ' ' || pad[k] == '\0'
    ensures TrimRight(s + pad) == s
  {
    var p := s + pad;
    var t := TrimRight(p);
    assert forall i :: |s| <= i < |p| ==> IsPadding(p[i]);
    assert s != "" ==> p[|s| - 1] == s[|s| - 1];
    assert |t| == |s|;
    assert p[..|s|] == s;
  }

  lemma TrimPadTo(s: string, width: nat)
    requires |s| <= width && (s != "" ==> !IsPadding(s[|s| - 1]))
    ensures TrimRight(PadTo(s, width)) == s
  {
    TrimPadded(s, seq(width - |s|, _ => ' '));
  }

  // ----- Decoding -----

  function DecodeOuch(p: string): ParsedOrder {
    if |p| < PACKET_LEN then EMPTY_ORDER
    else
      EMPTY_ORDER.(
        msgType := "D", msgTypeChar := 'D',
        seqNum := Number(p[1..9]),
        clOrdId := TrimRight(p[9..23]),
        side := if p[23] == 'B' || p[23] == '1' then 1 else 2,
        quantity := SignedInt32(Number(p[24..28])),
        price := Number(p[28..32]),
        symbol := TrimRight(p[32..38]))
  }

  function DecodeSbe(p: string): ParsedOrder {
    if |p| < PACKET_LEN then EMPTY_ORDER
    else
      EMPTY_ORDER.(
        msgType := "D", msgTypeChar := 'D',
        seqNum := Number(p[8..16]),
        clOrdId := Show(Number(p[16..24])),
        price := SignedInt64(Number(p[24..32])),
        quantity := SignedInt32(Number(p[32..36])),
        side := Number(p[36..37]),
        symbol := TrimRight(p[37..45]))
  }

  function Parse(proto: Protocol, payload: string): ParsedOrder {
    if payload == "" then EMPTY_ORDER
    else match proto
      case Ouch => DecodeOuch(payload)
      case Sbe => DecodeSbe(payload)
      case Fix => FixParser.Scan(payload, EMPTY_ORDER)
  }

  // ----- The layouts, byte by byte -----

  ghost predicate AreBytes(p: string) {
    forall k :: 0 <= k < |p| ==> p[k] as int < 256
  }

  /** The value of `k` bytes from offset `at`, the first one least significant. */
  function Little(p: string, at: nat, k: nat): nat
    requires at + k <= |p|
  {
    if k == 0 then 0 else Little(p, at, k - 1) + p[at + k - 1] as int * Pow256(k - 1)
  }

  lemma {:induction false} NumberSnoc(s: string, c: char)
    ensures Number(s + [c]) == Number(s) + c as int * Pow256(|s|)
  {
    if s == "" {
      assert s + [c] == [c] && [c][1..] == "";
    } else {
      assert (s + [c])[1..] == s[1..] + [c];
      NumberSnoc(s[1..], c);
      Scale(c as int, Pow256(|s| - 1));
    }
  }

  lemma Scale(c: nat, p: nat)
    ensures c * (256 * p) == 256 * (c * p)
  {
  }

  lemma {:induction false} NumberIsLittle(p: string, at: nat, k: nat)
    requires at + k <= |p|
    ensures Number(p[at..at + k]) == Little(p, at, k)
  {
    if k > 0 {
      NumberIsLittle(p, at, k - 1);
      NumberSnoc(p[at..at + k - 1], p[at + k - 1]);
      assert p[at..at + k] == p[at..at + k - 1] + [p[at + k - 1]];
    }
  }

  lemma {:induction false} LittleFits(p: string, at: nat, k: nat)
    requires at + k <= |p| && AreBytes(p)
    ensures Little(p, at, k) < Pow256(k)
  {
    if k > 0 {
      LittleFits(p, at, k - 1);
      ScaleBound(p[at + k - 1] as int, Pow256(k - 1));
    }
  }

  lemma ScaleBound(c: nat, p: nat)
    requires c < 256
    ensures c * p <= 255 * p
  {
  }

  /** `t` is `s` without its trailing spaces and NULs. */
  predicate Trimmed(t: string, s: string) {
    && |t| <= |s| && t == s[..|t|]
    && (t != "" ==> t[|t| - 1] != ' ' && t[|t| - 1] != '\0')
    && forall k :: |t| <= k < |s| ==> s[k] == ' ' || s[k] == '\0'
  }

  /** `x` is the signed integer whose two's complement in 32 bits is `n`. */
  predicate Signed32(x: int, n: nat) {
    -0x8000_0000 <= x < 0x8000_0000 && (x == n || x == n - 0x1_0000_0000)
  }

  predicate Signed64(x: int, n: nat) {
    -0x8000_0000_0000_0000 <= x < 0x8000_0000_0000_0000 && (x == n || x == n - 0x1_0000_0000_0000_0000)
  }

  lemma WordsFit(p: string)
    requires AreBytes(p)
    ensures forall at: nat :: at + 4 <= |p| ==> Little(p, at, 4) < 0x1_0000_0000
    ensures forall at: nat :: at + 8 <= |p| ==> Little(p, at, 8) < 0x1_0000_0000_0000_0000
  {
    PowersOf256();
    forall at: nat | at + 4 <= |p|
      ensures Little(p, at, 4) < 0x1_0000_0000
    {
      LittleFits(p, at, 4);
    }
    forall at: nat | at + 8 <= |p|
      ensures Little(p, at, 8) < 0x1_0000_0000_0000_0000
    {
      LittleFits(p, at, 8);
    }
  }

  /** Which bytes of an OUCH packet each member comes from; what follows byte 38 does not matter. */
  lemma OuchLayout(p: string)
    requires |p| >= 46 && AreBytes(p)
    ensures var o := Parse(Ouch, p);
      && o.msgType == "D" && o.msgTypeChar == 'D'
      && o.seqNum == Little(p, 1, 8) && Trimmed(o.clOrdId, p[9..23])
      && o.side == (if p[23] == 'B' || p[23] == '1' then 1 else 2)
      && Signed32(o.quantity, Little(p, 24, 4)) && o.price == Little(p, 28, 4) && Trimmed(o.symbol, p[32..38])
  {
    hide Number, Little, TrimRight;
    WordsFit(p);
    NumberIsLittle(p, 1, 8);
    NumberIsLittle(p, 24, 4);
    NumberIsLittle(p, 28, 4);
    TrimIsTrimmed(p[9..23]);
    TrimIsTrimmed(p[32..38]);
  }

  lemma TrimIsTrimmed(s: string)
    ensures Trimmed(TrimRight(s), s)
  {
  }

  /** Which bytes of an SBE packet each member comes from; the identifier is the decimal text of its number. */
  lemma SbeLayout(p: string)
    requires |p| >= 46 && AreBytes(p)
    ensures var o := Parse(Sbe, p);
      && o.msgType == "D" && o.msgTypeChar == 'D' && o.seqNum == Little(p, 8, 8)
      && AllDigits(o.clOrdId) && Value(o.clOrdId) == Little(p, 16, 8) && (|o.clOrdId| > 1 ==> o.clOrdId[0] != '0')
      && Signed64(o.price, Little(p, 24, 8)) && Signed32(o.quantity, Little(p, 32, 4))
      && o.side == p[36] as int && Trimmed(o.symbol, p[37..45])
  {
    hide Number, Little, TrimRight, Show;
    WordsFit(p);
    NumberIsLittle(p, 8, 8);
    NumberIsLittle(p, 16, 8);
    NumberIsLittle(p, 24, 8);
    NumberIsLittle(p, 32, 4);
    OneByte(p[36..37]);
    TrimIsTrimmed(p[37..45]);
    ShowIsNumber(Number(p[16..24]));
    ShowIsShort(Number(p[16..24]));
  }

  lemma OneByte(s: string)
    requires |s| == 1
    ensures Number(s) == s[0] as int
  {
    assert s[1..] == "";
  }

  lemma ShowIsNumber(n: nat)
    ensures AllDigits(Show(n)) && Value(Show(n)) == n
  {
  }

  /** A packet that is too short, and an empty payload in any protocol, decode to the empty order. */
  lemma ShortPackets(proto: Protocol, p: string)
    requires p == "" || (proto != Fix && |p| < 46)
    ensures Parse(proto, p) == ParsedOrder("", '?', "", "", 0, 0, 0, 0)
  {
  }

  // ----- One order, three encodings -----

  datatype Common = Common(seqNum: nat, symbol: string, buy: bool, quantity: nat, price: nat)

  /** Orders all three encodings can carry. */
  predicate InDomain(c: Common) {
    && c.seqNum < TWO_64 && c.quantity < 0x8000_0000 && c.price < TWO_32
    && |c.symbol| <= 6
    && (forall k :: 0 <= k < |c.symbol| ==> !FixParser.EndsField(c.symbol[k]))
    && (c.symbol != "" ==> !IsPadding(c.symbol[|c.symbol| - 1]))
  }

  function SideNumber(c: Common): nat {
    if c.buy then 1 else 2
  }

  /** Fields with their tags in plain decimal. */
  function Tagged(ps: seq<(nat, string)>): (fs: seq<FixParser.Field>)
    ensures |fs| == |ps|
    ensures forall i :: 0 <= i < |ps| ==> fs[i] == FixParser.Field(Show(ps[i].0), ps[i].1, FixParser.SOH)
  {
    seq(|ps|, i requires 0 <= i < |ps| => FixParser.Field(Show(ps[i].0), ps[i].1, FixParser.SOH))
  }

  /** The FIX message of the protocol arena, with the price to six decimals. */
  function FixFields(c: Common): seq<(nat, string)> {
    [(8, "FIX.4.2"), (9, "120"), (35, "D"), (49, "PRODUCER"), (56, "ENGINE"), (34, Show(c.seqNum)),
     (52, "20260727-12:00:00.000"), (11, "ORD_" + Show(c.seqNum)), (55, c.symbol), (54, Show(SideNumber(c))),
     (38, Show(c.quantity)), (40, "2"), (44, Render(c.price)), (10, "128")]
  }

  function EncodeFix(c: Common): string {
    FixParser.Encode(Tagged(FixFields(c))) + [FixParser.SOH, '\n']
  }

  function EncodeOuch(c: Common, clOrdId: string, ts: nat): (p: string)
    requires |c.symbol| <= 6 && |clOrdId| <= 14
    ensures |p| == PACKET_LEN
  {
    "O" + Bytes(c.seqNum, 8) + PadTo(clOrdId, 14) + (if c.buy then "B" else "S") + Bytes(c.quantity, 4)
    + Bytes(c.price, 4) + PadTo(c.symbol, 6) + Bytes(ts, 8)
  }

  function EncodeSbe(c: Common, clOrdId: nat): (p: string)
    requires |c.symbol| <= 6
    ensures |p| == PACKET_LEN
  {
    Bytes(36, 2) + Bytes(514, 2) + Bytes(1, 2) + Bytes(1, 2) + Bytes(c.seqNum, 8) + Bytes(clOrdId, 8)
    + Bytes(c.price, 8) + Bytes(c.quantity, 4) + Bytes(SideNumber(c), 1) + PadTo(c.symbol, 8) + Bytes(0, 1)
  }

  /** The order reads as `c` in everything but its identifier. */
  predicate Reads(o: ParsedOrder, c: Common) {
    && o.msgType == "D" && o.msgTypeChar == 'D'
    && o.seqNum == c.seqNum && o.symbol == c.symbol && o.side == SideNumber(c)
    && o.quantity == c.quantity && o.price == c.price
  }

  /** Seven consecutive parts of a packet, cut out again at their offsets. */
  lemma OuchReads(c: Common, clOrdId: string, ts: nat)
    requires InDomain(c) && |clOrdId| <= 14
    ensures Reads(DecodeOuch(EncodeOuch(c, clOrdId, ts)), c)
  {
    hide Bytes, Number, TrimRight, PadTo;
    var p := EncodeOuch(c, clOrdId, ts);
    assert p[1..9] == Bytes(c.seqNum, 8);
    assert p[23] == if c.buy then 'B' else 'S';
    assert p[24..28] == Bytes(c.quantity, 4);
    assert p[28..32] == Bytes(c.price, 4);
    assert p[32..38] == PadTo(c.symbol, 6);
    PowersOf256();
    NumberOfBytes(c.seqNum, 8);
    NumberOfBytes(c.quantity, 4);
    NumberOfBytes(c.price, 4);
    TrimPadTo(c.symbol, 6);
  }

  lemma SbeReads(c: Common, clOrdId: nat)
    requires InDomain(c)
    ensures Reads(DecodeSbe(EncodeSbe(c, clOrdId)), c)
  {
    hide Bytes, Number, TrimRight, PadTo, Show;
    var p := EncodeSbe(c, clOrdId);
    assert p[8..16] == Bytes(c.seqNum, 8);
    assert p[24..32] == Bytes(c.price, 8);
    assert p[32..36] == Bytes(c.quantity, 4);
    assert p[36..37] == Bytes(SideNumber(c), 1);
    assert p[37..45] == PadTo(c.symbol, 8);
    PowersOf256();
    NumberOfBytes(c.seqNum, 8);
    NumberOfBytes(c.price, 8);
    NumberOfBytes(c.quantity, 4);
    NumberOfBytes(SideNumber(c), 1);
    TrimPadTo(c.symbol, 8);
  }

  lemma TagNumbers(ps: seq<(nat, string)>)
    requires forall i :: 0 <= i < |ps| ==> ps[i].0 < 0x8000_0000
    ensures forall i :: 0 <= i < |ps| ==> FixParser.NumberOf(Tagged(ps)[i]) == ps[i].0
  {
    hide Show, ReadInt32;
    forall i | 0 <= i < |ps|
      ensures FixParser.NumberOf(Tagged(ps)[i]) == ps[i].0
    {
      ShowParses(ps[i].0, 0, 0);
    }
  }

  lemma FieldAt(fs: seq<FixParser.Field>, i: nat, tag: int)
    requires FixParser.DistinctTags(fs) && i < |fs| && FixParser.NumberOf(fs[i]) == tag && FixParser.Mapped(tag)
    ensures FixParser.Lookup(fs, tag) == Some(fs[i].val)
  {
    hide FixParser.NumberOf;
    FixParser.LookupFinds(fs, tag, fs[i].val);
  }

  ghost predicate Clean(s: string) {
    forall k :: 0 <= k < |s| ==> !FixParser.EndsField(s[k])
  }

  lemma DigitsAreClean(s: string)
    requires AllDigits(s)
    ensures Clean(s)
  {
    assert forall k :: 0 <= k < |s| ==> IsDigit(s[k]);
  }

  lemma RenderIsClean(n: nat)
    ensures Clean(Render(n))
  {
    hide Show, Pad;
    var i, f := Show(n / MICROS), Pad(n % MICROS, 6);
    DigitsAreClean(i);
    DigitsAreClean(f);
    assert Render(n) == i + ("." + f);
  }

  lemma ValuesAreClean(c: Common)
    requires InDomain(c)
    ensures forall i :: 0 <= i < |FixFields(c)| ==> Clean(FixFields(c)[i].1)
  {
    hide Show, Render;
    DigitsAreClean(Show(c.seqNum));
    DigitsAreClean(Show(SideNumber(c)));
    DigitsAreClean(Show(c.quantity));
    RenderIsClean(c.price);
    assert Clean("ORD_" + Show(c.seqNum));
  }

  lemma FixWellFormed(c: Common)
    requires InDomain(c)
    ensures FixParser.AllWellFormed(Tagged(FixFields(c)))
  {
    hide Show, Render, FixFields;
    var fs := Tagged(FixFields(c));
    ValuesAreClean(c);
    forall i | 0 <= i < |fs|
      ensures FixParser.WellFormed(fs[i])
    {
      assert Clean(FixFields(c)[i].1);
      ShowIsNumber(FixFields(c)[i].0);
    }
  }

  lemma FixIsMessage(c: Common)
    requires InDomain(c)
    ensures FixParser.Message(EncodeFix(c), Tagged(FixFields(c)), [FixParser.SOH, '\n'])
    ensures forall i :: 0 <= i < |FixFields(c)| ==> FixParser.NumberOf(Tagged(FixFields(c))[i]) == FixFields(c)[i].0
  {
    hide Show, Render, FixParser.Encode, FixParser.NumberOf, FixParser.AllWellFormed;
    FixWellFormed(c);
    TagNumbers(FixFields(c));
  }

  lemma FixReads(c: Common)
    requires InDomain(c)
    ensures Reads(FixParser.Scan(EncodeFix(c), EMPTY_ORDER), c)
  {
    hide Show, Render, Price, ReadInt32, ReadUint64, EncodeFix;
    hide FixParser.Lookup, FixParser.Scan, FixParser.Encode, FixParser.NumberOf, FixParser.AllWellFormed;
    var fs := Tagged(FixFields(c));
    FixIsMessage(c);
    FixParser.ParsesToFields(EncodeFix(c), fs, [FixParser.SOH, '\n']);
    FieldAt(fs, 2, 35);
    FieldAt(fs, 5, 34);
    FieldAt(fs, 8, 55);
    FieldAt(fs, 9, 54);
    FieldAt(fs, 10, 38);
    FieldAt(fs, 12, 44);
    ShowParses(c.seqNum, 0, 0);
    ShowParses(SideNumber(c), 0, 0);
    ShowParses(c.quantity, 0, 0);
    RenderParses(c.price);
  }

  /**
   Cross-protocol agreement: for every order in the common domain, the FIX, OUCH and SBE
   encodings decode to the same message type, sequence number, symbol, side, quantity and price,
   namely those of the order.
   */
  lemma ProtocolsAgree(c: Common, ouchId: string, ts: nat, sbeId: nat)
    requires InDomain(c) && |ouchId| <= 14
    ensures Reads(Parse(Fix, EncodeFix(c)), c)
    ensures Reads(Parse(Ouch, EncodeOuch(c, ouchId, ts)), c)
    ensures Reads(Parse(Sbe, EncodeSbe(c, sbeId)), c)
  {
    hide FixParser.Scan, FixParser.Encode, DecodeOuch, DecodeSbe, Reads, FixFields, Tagged, InDomain;
    FixReads(c);
    OuchReads(c, ouchId, ts);
    SbeReads(c, sbeId);
    assert EncodeFix(c) != "";
  }

  /** The identifiers come through too, within what each layout can hold. */
  lemma IdentifiersDecode(c: Common, ouchId: string, ts: nat, sbeId: nat)
    requires InDomain(c) && |ouchId| <= 14 && (ouchId != "" ==> !IsPadding(ouchId[|ouchId| - 1])) && sbeId < TWO_64
    ensures Parse(Ouch, EncodeOuch(c, ouchId, ts)).clOrdId == ouchId
    ensures Parse(Sbe, EncodeSbe(c, sbeId)).clOrdId == Show(sbeId)
  {
    hide Bytes, Number, TrimRight, PadTo, Show;
    assert EncodeOuch(c, ouchId, ts)[9..23] == PadTo(ouchId, 14);
    TrimPadTo(ouchId, 14);
    assert EncodeSbe(c, sbeId)[16..24] == Bytes(sbeId, 8);
    PowersOf256();
    NumberOfBytes(sbeId, 8);
  }

  // ----- What every payload decodes to -----

  /** Whatever the bytes, in every protocol the decoded quantity is a 32-bit integer. */
  lemma ParsedQuantityFits(proto: Protocol, payload: string)
    ensures FitsInt32(Parse(proto, payload).quantity)
  {
    hide FixParser.Scan;
    FixParser.ScanFits(payload, EMPTY_ORDER);
  }
}
