/** The FIX tag=value scanner for New Order - Single, after "FIX Message Format and Delivery" of FIX 4.2. */
module FixParser {
  import opened Basics
  import opened Orders
  import opened Decimal

  const SOH: char := 1 as char

  predicate IsDelimiter(c: char) {
    c == SOH || c == '|'
  }

  function FindEquals(s: string): (i: nat)
    ensures i <= |s| && (forall k :: 0 <= k < i ==> s[k] != '=') && (i < |s| ==> s[i] == '=')
  {
    if s == "" || s[0] == '=' then 0 else 1 + FindEquals(s[1..])
  }

  function FindDelimiter(s: string): (i: nat)
    ensures i <= |s| && (forall k :: 0 <= k < i ==> !IsDelimiter(s[k])) && (i < |s| ==> IsDelimiter(s[i]))
  {
    if s == "" || IsDelimiter(s[0]) then 0 else 1 + FindDelimiter(s[1..])
  }

  /** What one field does to the order. */
  function Assign(o: ParsedOrder, tag: int, v: string): ParsedOrder {
    if tag == 35 then o.(msgType := v, msgTypeChar := if v != "" then v[0] else o.msgTypeChar)
    else if tag == 11 then o.(clOrdId := v)
    else if tag == 55 then o.(symbol := v)
    else if tag == 54 then o.(side := ReadInt32(v, o.side))
    else if tag == 38 then o.(quantity := ReadInt32(v, o.quantity))
    else if tag == 44 then o.(price := Price(v))
    else if tag == 34 then o.(seqNum := ReadUint64(v, o.seqNum))
    else o
  }

  /** Scans fields until no '=' is left. */
  function Scan(s: string, o: ParsedOrder): ParsedOrder
    decreases |s|
  {
    var i := FindEquals(s);
    if i == |s| then o
    else
      var rest := s[i + 1..];
      var j := FindDelimiter(rest);
      Scan(if j < |rest| then rest[j + 1..] else "", Assign(o, ReadInt32(s[..i], 0), rest[..j]))
  }

  lemma ScanStep(s: string, i: nat, rest: string, j: nat, o: ParsedOrder)
    requires i == FindEquals(s) < |s| && rest == s[i + 1..] && j == FindDelimiter(rest)
    ensures Scan(s, o) ==
            Scan(if j < |rest| then rest[j + 1..] else "", Assign(o, ReadInt32(s[..i], 0), rest[..j]))
  {
    hide Assign, ReadInt32;
  }

  /** One field of the buffer, in terms of positions. */
  lemma ScanAt(buf: string, ptr: nat, eq: nat, end: nat, o: ParsedOrder)
    requires ptr <= eq < end <= |buf|
    requires eq == ptr + FindEquals(buf[ptr..]) && end == eq + 1 + FindDelimiter(buf[eq + 1..])
    ensures Scan(buf[ptr..], o) ==
            Scan(buf[if end < |buf| then end + 1 else end..], Assign(o, ReadInt32(buf[ptr..eq], 0), buf[eq + 1..end]))
  {
    hide Scan, Assign, ReadInt32;
    var s, rest := buf[ptr..], buf[eq + 1..];
    assert s[eq - ptr + 1..] == rest && s[..eq - ptr] == buf[ptr..eq];
    assert rest[..end - eq - 1] == buf[eq + 1..end];
    ScanStep(s, eq - ptr, rest, end - eq - 1, o);
    if end < |buf| {
      assert rest[end - eq..] == buf[end + 1..];
    } else {
      assert buf[end..] == "";
    }
  }

  lemma ScanEnd(s: string, o: ParsedOrder)
    requires FindEquals(s) == |s|
    ensures Scan(s, o) == o
  {
  }

  // ----- The scanner's loops -----

  lemma {:induction false} FindEqualsIs(s: string, i: nat)
    requires i <= |s| && (forall k :: 0 <= k < i ==> s[k] != '=') && (i < |s| ==> s[i] == '=')
    ensures i == FindEquals(s)
  {
    if i > 0 {
      FindEqualsIs(s[1..], i - 1);
    }
  }

  lemma {:induction false} FindDelimiterIs(s: string, i: nat)
    requires i <= |s| && (forall k :: 0 <= k < i ==> !IsDelimiter(s[k])) && (i < |s| ==> IsDelimiter(s[i]))
    ensures i == FindDelimiter(s)
  {
    if i > 0 {
      FindDelimiterIs(s[1..], i - 1);
    }
  }

  method SkipTag(buf: string, start: nat) returns (ptr: nat)
    requires start <= |buf|
    ensures ptr == start + FindEquals(buf[start..]) <= |buf|
  {
    ptr := start;
    while ptr < |buf| && buf[ptr] != '='
      invariant start <= ptr <= |buf|
      invariant forall k :: start <= k < ptr ==> buf[k] != '='
    {
      ptr := ptr + 1;
    }
    FindEqualsIs(buf[start..], ptr - start);
  }

  method SkipValue(buf: string, start: nat) returns (ptr: nat)
    requires start <= |buf|
    ensures ptr == start + FindDelimiter(buf[start..]) <= |buf|
  {
    ptr := start;
    while ptr < |buf| && buf[ptr] != SOH && buf[ptr] != '|'
      invariant start <= ptr <= |buf|
      invariant forall k :: start <= k < ptr ==> !IsDelimiter(buf[k])
    {
      ptr := ptr + 1;
    }
    FindDelimiterIs(buf[start..], ptr - start);
  }

  /** The switch over mapped tags. */
  method AssignField(o: ParsedOrder, tag: int, v: string) returns (r: ParsedOrder)
    ensures r == Assign(o, tag, v)
  {
    r := o;
    if tag == 35 {
      r := r.(msgType := v);
      if v != "" {
        r := r.(msgTypeChar := v[0]);
      }
    } else if tag == 11 {
      r := r.(clOrdId := v);
    } else if tag == 55 {
      r := r.(symbol := v);
    } else if tag == 54 {
      r := r.(side := ReadInt32(v, r.side));
    } else if tag == 38 {
      r := r.(quantity := ReadInt32(v, r.quantity));
    } else if tag == 44 {
      var price := ParseFixedPointPrice(v);
      r := r.(price := price);
    } else if tag == 34 {
      r := r.(seqNum := ReadUint64(v, r.seqNum));
    }
  }

  method ParseInPlace(buf: string) returns (order: ParsedOrder)
    ensures order == Scan(buf, EMPTY_ORDER)
  {
    hide Scan, Assign, ReadInt32;
    order := EMPTY_ORDER;
    var ptr := 0;
    assert buf[0..] == buf;
    while ptr < |buf|
      invariant 0 <= ptr <= |buf|
      invariant Scan(buf[ptr..], order) == Scan(buf, EMPTY_ORDER)
    {
      var eq := SkipTag(buf, ptr);
      if eq >= |buf| {
        break;
      }
      var tag := ReadInt32(buf[ptr..eq], 0);
      var end := SkipValue(buf, eq + 1);
      ScanAt(buf, ptr, eq, end, order);
      order := AssignField(order, tag, buf[eq + 1..end]);
      ptr := end;
      if ptr < |buf| {
        ptr := ptr + 1;
      }
    }
    ScanEnd(buf[ptr..], order);
  }

  // ----- What every buffer parses to -----

  lemma AssignFits(o: ParsedOrder, tag: int, v: string)
    requires FitsInt32(o.quantity)
    ensures FitsInt32(Assign(o, tag, v).quantity)
  {
  }

  /** Whatever the text, the parsed quantity is a 32-bit integer. */
  lemma {:induction false} ScanFits(s: string, o: ParsedOrder)
    requires FitsInt32(o.quantity)
    ensures FitsInt32(Scan(s, o).quantity)
    decreases |s|
  {
    hide Scan, Assign, ReadInt32;
    var i := FindEquals(s);
    if i == |s| {
      ScanEnd(s, o);
    } else {
      var rest := s[i + 1..];
      var j := FindDelimiter(rest);
      ScanStep(s, i, rest, j, o);
      AssignFits(o, ReadInt32(s[..i], 0), rest[..j]);
      ScanFits(if j < |rest| then rest[j + 1..] else "", Assign(o, ReadInt32(s[..i], 0), rest[..j]));
    }
  }

  // ----- Encoded messages -----

  /** A field as written: the text of its tag, its value, and the delimiter that ends it. */
  datatype Field = Field(tag: string, val: string, delim: char)

  /** What the parser makes of the tag: leading zeros do not matter, and a text without a number is tag 0. */
  function NumberOf(f: Field): int {
    ReadInt32(f.tag, 0)
  }

  /** SOH and the vertical bar both end a field. */
  predicate EndsField(c: char) {
    c as int == 1 || c == '|'
  }

  /** The tag may hold anything but the equals sign, the value anything but a delimiter. */
  predicate WellFormed(f: Field) {
    && (forall k :: 0 <= k < |f.tag| ==> f.tag[k] != '=')
    && (forall k :: 0 <= k < |f.val| ==> !EndsField(f.val[k]))
    && EndsField(f.delim)
  }

  ghost predicate AllWellFormed(fs: seq<Field>) {
    forall i :: 0 <= i < |fs| ==> WellFormed(fs[i])
  }

  lemma EndsWell(f: Field)
    requires WellFormed(f)
    ensures EndsField(f.delim)
  {
  }

  function EncodeField(f: Field): string {
    f.tag + ("=" + f.val)
  }

  /** The fields, each ended by its delimiter; the last one is not ended yet. */
  function Encode(fs: seq<Field>): string {
    if fs == [] then ""
    else if |fs| == 1 then EncodeField(fs[0])
    else EncodeField(fs[0]) + ([fs[0].delim] + Encode(fs[1..]))
  }

  /** What may follow the last field: nothing, or a delimiter. */
  predicate Ends(end: string) {
    end == "" || EndsField(end[0])
  }

  function Past(end: string): string {
    if end == "" then "" else end[1..]
  }

  function AssignAll(o: ParsedOrder, fs: seq<Field>): ParsedOrder
    decreases |fs|
  {
    if fs == [] then o else AssignAll(Assign(o, NumberOf(fs[0]), fs[0].val), fs[1..])
  }

  lemma TagEnds(f: Field, rest: string)
    requires WellFormed(f)
    ensures var s := f.tag + ("=" + rest);
      FindEquals(s) == |f.tag| < |s| && s[..|f.tag|] == f.tag && s[|f.tag| + 1..] == rest
  {
    var s := f.tag + ("=" + rest);
    assert forall k :: 0 <= k < |f.tag| ==> s[k] == f.tag[k];
    FindEqualsIs(s, |f.tag|);
  }

  lemma ValueEnds(f: Field, end: string)
    requires WellFormed(f) && Ends(end)
    ensures var rest := f.val + end;
      FindDelimiter(rest) == |f.val| && rest[..|f.val|] == f.val
      && (if |f.val| < |rest| then rest[|f.val| + 1..] else "") == Past(end)
  {
    FindDelimiterIs(f.val + end, |f.val|);
  }

  lemma FieldText(f: Field, end: string)
    ensures EncodeField(f) + end == f.tag + ("=" + (f.val + end))
  {
    assert ("=" + f.val) + end == "=" + (f.val + end);
  }

  lemma ScanField(f: Field, end: string, o: ParsedOrder)
    requires WellFormed(f) && Ends(end)
    ensures Scan(EncodeField(f) + end, o) == Scan(Past(end), Assign(o, NumberOf(f), f.val))
  {
    hide Scan, Assign, ReadInt32, FindEquals, FindDelimiter, WellFormed, EncodeField;
    FieldText(f, end);
    TagEnds(f, f.val + end);
    ValueEnds(f, end);
    ScanStep(EncodeField(f) + end, |f.tag|, f.val + end, |f.val|, o);
  }

  /** Scanning an encoded message assigns its fields in order, and goes on with what follows. */
  lemma {:induction false} ScanEncode(fs: seq<Field>, end: string, o: ParsedOrder)
    requires AllWellFormed(fs) && fs != [] && Ends(end)
    ensures Scan(Encode(fs) + end, o) == Scan(Past(end), AssignAll(o, fs))
    decreases |fs|
  {
    hide Assign, Scan, EncodeField, WellFormed;
    var o' := Assign(o, NumberOf(fs[0]), fs[0].val);
    assert WellFormed(fs[0]);
    EndsWell(fs[0]);
    if |fs| == 1 {
      ScanField(fs[0], end, o);
      assert fs[1..] == [];
    } else {
      var more := [fs[0].delim] + (Encode(fs[1..]) + end);
      assert Encode(fs) + end == EncodeField(fs[0]) + more;
      assert Past(more) == Encode(fs[1..]) + end;
      ScanField(fs[0], more, o);
      ScanEncode(fs[1..], end, o');
    }
  }

  // ----- Field order does not matter -----

  function Lookup(fs: seq<Field>, tag: int): Option<string> {
    if fs == [] then None else if NumberOf(fs[0]) == tag then Some(fs[0].val) else Lookup(fs[1..], tag)
  }

  predicate Mapped(tag: int) {
    tag == 35 || tag == 11 || tag == 55 || tag == 54 || tag == 38 || tag == 44 || tag == 34
  }

  /** No mapped tag occurs twice; other tags may. */
  ghost predicate DistinctTags(fs: seq<Field>) {
    forall i, j :: 0 <= i < j < |fs| && Mapped(NumberOf(fs[i])) ==> NumberOf(fs[i]) != NumberOf(fs[j])
  }

  /** The order as a record of look-ups, one per mapped tag; `o` supplies what is missing. */
  function FromFields(o: ParsedOrder, fs: seq<Field>): ParsedOrder {
    ParsedOrder(
      TextOf(Lookup(fs, 35), o.msgType), CharOf(Lookup(fs, 35), o.msgTypeChar),
      TextOf(Lookup(fs, 11), o.clOrdId), TextOf(Lookup(fs, 55), o.symbol),
      IntOf(Lookup(fs, 54), o.side), IntOf(Lookup(fs, 38), o.quantity),
      PriceOf(Lookup(fs, 44), o.price), NumOf(Lookup(fs, 34), o.seqNum))
  }

  function TextOf(v: Option<string>, old_: string): string {
    if v.Some? then v.value else old_
  }

  function CharOf(v: Option<string>, old_: char): char {
    if v.Some? && v.value != "" then v.value[0] else old_
  }

  function IntOf(v: Option<string>, old_: int): int {
    if v.Some? then ReadInt32(v.value, old_) else old_
  }

  function PriceOf(v: Option<string>, old_: int): int {
    if v.Some? then Price(v.value) else old_
  }

  function NumOf(v: Option<string>, old_: nat): nat {
    if v.Some? then ReadUint64(v.value, old_) else old_
  }

  lemma {:induction false} LookupAbsent(fs: seq<Field>, tag: int)
    requires forall i :: 0 <= i < |fs| ==> NumberOf(fs[i]) != tag
    ensures Lookup(fs, tag) == None
  {
    if fs != [] {
      LookupAbsent(fs[1..], tag);
    }
  }

  /**
   With no mapped tag twice, assigning the fields one after another sets each member from its own
   tag, wherever it stands, and no other field sets anything.
   */
  lemma {:induction false} AssignAllIsLookups(o: ParsedOrder, fs: seq<Field>)
    requires DistinctTags(fs)
    ensures AssignAll(o, fs) == FromFields(o, fs)
    decreases |fs|
  {
    hide Assign, NumberOf;
    if fs != [] {
      var f := fs[0];
      AssignAllIsLookups(Assign(o, NumberOf(f), f.val), fs[1..]);
      if Mapped(NumberOf(f)) {
        LookupAbsent(fs[1..], NumberOf(f));
      }
      FirstField(o, f, fs);
    }
  }

  lemma LookupStep(fs: seq<Field>, tag: int)
    requires fs != []
    ensures Lookup(fs, tag) == if NumberOf(fs[0]) == tag then Some(fs[0].val) else Lookup(fs[1..], tag)
  {
  }

  lemma FirstField(o: ParsedOrder, f: Field, fs: seq<Field>)
    requires fs != [] && f == fs[0] && (Mapped(NumberOf(f)) ==> Lookup(fs[1..], NumberOf(f)) == None)
    ensures FromFields(Assign(o, NumberOf(f), f.val), fs[1..]) == FromFields(o, fs)
  {
    hide ReadInt32, ReadUint64, Price, Lookup, NumberOf;
    LookupStep(fs, 35);
    LookupStep(fs, 11);
    LookupStep(fs, 55);
    LookupStep(fs, 54);
    LookupStep(fs, 38);
    LookupStep(fs, 44);
    LookupStep(fs, 34);
  }

  ghost predicate Has(fs: seq<Field>, tag: int, v: string) {
    exists i :: 0 <= i < |fs| && NumberOf(fs[i]) == tag && fs[i].val == v
  }

  /** With no mapped tag twice, a look-up finds exactly the field that is there. */
  lemma {:induction false} LookupFinds(fs: seq<Field>, tag: int, v: string)
    requires DistinctTags(fs) && Mapped(tag)
    ensures Lookup(fs, tag) == Some(v) <==> Has(fs, tag, v)
  {
    hide NumberOf;
    if fs != [] {
      LookupFinds(fs[1..], tag, v);
      if Has(fs[1..], tag, v) {
        var i :| 0 <= i < |fs[1..]| && NumberOf(fs[1..][i]) == tag && fs[1..][i].val == v;
        assert NumberOf(fs[i + 1]) == tag && fs[i + 1].val == v;
      }
      if Has(fs, tag, v) {
        var i :| 0 <= i < |fs| && NumberOf(fs[i]) == tag && fs[i].val == v;
        assert i > 0 ==> NumberOf(fs[1..][i - 1]) == tag && fs[1..][i - 1].val == v;
      }
    }
  }

  ghost predicate SameMappedFields(fs: seq<Field>, gs: seq<Field>) {
    forall tag, v :: Mapped(tag) ==> (Has(fs, tag, v) <==> Has(gs, tag, v))
  }

  lemma SameLookup(fs: seq<Field>, gs: seq<Field>, tag: int)
    requires DistinctTags(fs) && DistinctTags(gs) && SameMappedFields(fs, gs) && Mapped(tag)
    ensures Lookup(fs, tag) == Lookup(gs, tag)
  {
    hide DistinctTags, Lookup, Has;
    var a, b := Lookup(fs, tag), Lookup(gs, tag);
    if a.Some? {
      LookupFinds(fs, tag, a.value);
      LookupFinds(gs, tag, a.value);
    } else if b.Some? {
      LookupFinds(fs, tag, b.value);
      LookupFinds(gs, tag, b.value);
    }
  }

  /** A message: fields, and an end without a further field. */
  ghost predicate Message(s: string, fs: seq<Field>, end: string) {
    && s == Encode(fs) + end
    && AllWellFormed(fs) && DistinctTags(fs) && fs != []
    && Ends(end) && forall k :: 0 <= k < |end| ==> end[k] != '='
  }

  /** A well-formed message parses to its fields, terminated or not; what has no field stays empty, zero or '?'. */
  lemma ParsesToFields(s: string, fs: seq<Field>, end: string)
    requires Message(s, fs, end)
    ensures Scan(s, EMPTY_ORDER) == FromFields(ParsedOrder("", '?', "", "", 0, 0, 0, 0), fs)
  {
    hide Encode, AllWellFormed, DistinctTags;
    ScanEncode(fs, end, EMPTY_ORDER);
    FindEqualsIs(Past(end), |Past(end)|);
    ScanEnd(Past(end), AssignAll(EMPTY_ORDER, fs));
    AssignAllIsLookups(EMPTY_ORDER, fs);
  }

  /**
   FIX parsing does not depend on field order: two well-formed messages in which no mapped tag
   occurs twice and which hold the same mapped fields parse to the same order, however the fields
   are permuted, whatever unmapped fields stand between them, however the tags are written,
   whichever delimiter ends each of them and whether or not the last field is terminated.
   */
  lemma FieldOrderDoesNotMatter(s: string, fs: seq<Field>, end: string,
                                s': string, gs: seq<Field>, end': string)
    requires Message(s, fs, end) && Message(s', gs, end') && SameMappedFields(fs, gs)
    ensures Scan(s, EMPTY_ORDER) == Scan(s', EMPTY_ORDER)
  {
    hide Scan, Encode, AllWellFormed, DistinctTags, SameMappedFields, Lookup;
    ParsesToFields(s, fs, end);
    ParsesToFields(s', gs, end');
    SameLookup(fs, gs, 35);
    SameLookup(fs, gs, 11);
    SameLookup(fs, gs, 55);
    SameLookup(fs, gs, 54);
    SameLookup(fs, gs, 38);
    SameLookup(fs, gs, 44);
    SameLookup(fs, gs, 34);
  }

  /** A permutation is the special case with the same fields. */
  lemma PermutedFieldsParseAlike(s: string, fs: seq<Field>, end: string, s': string, gs: seq<Field>)
    requires Message(s, fs, end) && s' == Encode(gs) + end
    requires multiset(fs) == multiset(gs)
    ensures Scan(s, EMPTY_ORDER) == Scan(s', EMPTY_ORDER)
  {
    hide Scan, Encode, NumberOf;
    PermutedDistinct(fs, gs);
    PermutedHas(fs, gs);
    PermutedHas(gs, fs);
    assert |gs| == |multiset(gs)| == |multiset(fs)| == |fs|;
    forall i | 0 <= i < |gs|
      ensures WellFormed(gs[i])
    {
      assert gs[i] in multiset(gs);
      assert gs[i] in fs;
    }
    FieldOrderDoesNotMatter(s, fs, end, s', gs, end);
  }

  lemma PermutedHas(fs: seq<Field>, gs: seq<Field>)
    requires multiset(fs) == multiset(gs)
    ensures forall tag, v :: Has(fs, tag, v) ==> Has(gs, tag, v)
  {
    hide NumberOf;
    forall tag, v | Has(fs, tag, v)
      ensures Has(gs, tag, v)
    {
      var i :| 0 <= i < |fs| && NumberOf(fs[i]) == tag && fs[i].val == v;
      assert fs[i] in multiset(gs);
      var j :| 0 <= j < |gs| && gs[j] == fs[i];
    }
  }

  /** Two places with equal fields count twice, wherever the fields are moved. */
  lemma PermutedDistinct(fs: seq<Field>, gs: seq<Field>)
    requires multiset(fs) == multiset(gs) && DistinctTags(fs)
    ensures DistinctTags(gs)
  {
    hide NumberOf;
    forall i, j | 0 <= i < j < |gs| && Mapped(NumberOf(gs[i]))
      ensures NumberOf(gs[i]) != NumberOf(gs[j])
    {
      if NumberOf(gs[i]) == NumberOf(gs[j]) {
        assert gs[i] in multiset(fs) && gs[j] in multiset(fs);
        var k :| 0 <= k < |fs| && fs[k] == gs[i];
        var l :| 0 <= l < |fs| && fs[l] == gs[j];
        assert k == l;
        TwicePresent(gs, i, j);
        OncePresent(fs, k);
        assert false;
      }
    }
  }

  lemma TwicePresent(gs: seq<Field>, i: nat, j: nat)
    requires i < j < |gs| && gs[i] == gs[j]
    ensures multiset(gs)[gs[i]] >= 2
  {
    var a, b := gs[..j], gs[j..];
    assert gs == a + b;
    assert a[i] in multiset(a) && b[0] in multiset(b);
  }

  lemma OncePresent(fs: seq<Field>, k: nat)
    requires k < |fs| && forall i :: 0 <= i < |fs| && i != k ==> fs[i] != fs[k]
    ensures multiset(fs)[fs[k]] == 1
  {
    var a, b := fs[..k], fs[k + 1..];
    assert fs == a + [fs[k]] + b;
    assert fs[k] !in a && fs[k] !in b;
  }
}
