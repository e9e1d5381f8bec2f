/** What the value of a covered component is, by the message it is taken from. */
module SignatureValues {
  import opened Basics
  import opened Digits
  import opened SfModel
  import SfGrammar
  import SfSerializer
  import SfSerialized
  import SfParse
  import SfParsed
  import SfRoundTrip
  import opened SignatureBase

  // ---------------------------------------------------------------- the related request

  function WithoutKey(ps: Parameters, k: Text): Parameters {
    if ps == [] then []
    else WithoutKey(ps[..|ps| - 1], k) + if ps[|ps| - 1].key == k then [] else [ps[|ps| - 1]]
  }

  lemma {:induction false} WithoutKeyMembers(ps: Parameters, k: Text)
    ensures forall p :: p in WithoutKey(ps, k) <==> p in ps && p.key != k
  {
    if ps != [] {
      WithoutKeyMembers(ps[..|ps| - 1], k);
      assert ps == ps[..|ps| - 1] + [ps[|ps| - 1]];
    }
  }

  lemma HasKeyByMember(ps: Parameters, k: Text)
    ensures HasKey(ps, k) <==> exists p :: p in ps && p.key == k
  {
    if HasKey(ps, k) {
      var i :| 0 <= i < |ps| && ps[i].key == k;
      assert ps[i] in ps;
    }
  }

  lemma {:induction false} WithoutKeyValues(ps: Parameters, k: Text, other: Text)
    requires k != other
    ensures SfParse.LastValue(WithoutKey(ps, k), other) == SfParse.LastValue(ps, other)
  {
    if ps != [] {
      var init, last := ps[..|ps| - 1], ps[|ps| - 1];
      WithoutKeyValues(init, k, other);
      var rest := WithoutKey(init, k);
      if last.key == k {
        assert rest + [] == rest;
      } else {
        assert (rest + [last])[..|rest| + 1 - 1] == rest;
      }
    }
  }

  lemma WithoutKeyKeys(ps: Parameters, k: Text, other: Text)
    ensures HasKey(WithoutKey(ps, k), other) <==> other != k && HasKey(ps, other)
  {
    WithoutKeyMembers(ps, k);
    HasKeyByMember(ps, other);
    HasKeyByMember(WithoutKey(ps, k), other);
  }

  /** Dropping `req` from the parameters drops it from the flags and nothing else. */
  lemma FlagsWithoutReq(c: Component)
    requires FlagsOf(c).Ok?
    ensures FlagsOf(Component(c.name, WithoutKey(c.parameters, REQ))) == Ok(FlagsOf(c).value.(req := false))
  {
    hide Understood, StrOf;
    var ps, rest := c.parameters, WithoutKey(c.parameters, REQ);
    FlagsMeaning(ps);
    FlagsMeaning(rest);
    WithoutKeyMembers(ps, REQ);
    forall i | 0 <= i < |rest| ensures Understood(rest[i]) {
      assert rest[i] in ps;
    }
    WithoutKeyKeys(ps, REQ, REQ);
    WithoutKeyKeys(ps, REQ, SF);
    WithoutKeyKeys(ps, REQ, BS);
    SameStr(ps, rest, KEY);
    SameStr(ps, rest, NAME);
  }

  lemma SameStr(ps: Parameters, rest: Parameters, k: Text)
    requires rest == WithoutKey(ps, REQ) && k != REQ
    ensures StrOf(rest, k) == StrOf(ps, k)
  {
    WithoutKeyValues(ps, REQ, k);
  }

  /**
   * A component of the related request has, in a response, exactly the value or error that it has without
   * the parameter in the request alone, whatever the response itself says; it is missing when there is no
   * such request, and malformed in a request.
   */
  lemma RequestComponent(context: Context, c: Component)
    requires FlagsOf(c).Ok? && HasKey(c.parameters, REQ)
    ensures context.message.Request? ==> ComponentValue(context, c) == Err(Malformed)
    ensures context.message.Response? && context.message.request.None? ==> ComponentValue(context, c) == Err(MissingComponent)
    ensures context.message.Response? && context.message.request.Some? ==>
              ComponentValue(context, c)
              == ComponentValue(context.(message := Request(context.message.request.value)),
                                Component(c.name, WithoutKey(c.parameters, REQ)))
  {
    FlagsMeaning(c.parameters);
    FlagsWithoutReq(c);
    assert FlagsOf(c).value.req;
    if context.message.Response? && context.message.request.Some? {
      FieldOfRequest(context, context.message.request.value, c.name, FlagsOf(c).value);
    }
  }

  /** The value of a field does not depend on the message but through its lines, nor on the flag `req`. */
  lemma FieldOfRequest(context: Context, headers: Headers, name: Text, flags: Flags)
    ensures FieldValue(context, headers, name, flags)
         == FieldValue(context.(message := Request(headers)), headers, name, flags.(req := false))
  {
  }

  // ---------------------------------------------------------------- derived components

  /** Without `req`, a status is the three digits of a response's own, and other derived components are a request's. */
  lemma DerivedComponent(context: Context, c: Component)
    requires FlagsOf(c).Ok? && !HasKey(c.parameters, REQ) && Derived(c.name)
    ensures c.name == STATUS ==>
              if context.message.Response? && 100 <= context.message.status <= 599
              then exists t: Text :: ComponentValue(context, c) == Ok(t) && |t| == 3 && AllDigits(t) && Parse(t) == context.message.status
              else ComponentValue(context, c) == Err(Malformed)
    ensures c.name != STATUS && context.message.Response? ==> ComponentValue(context, c) == Err(MissingComponent)
    ensures c.name != STATUS && context.message.Request? ==>
              ComponentValue(context, c) == AsLine(context.derived(c.name, StrOf(c.parameters, NAME)))
  {
    FlagsMeaning(c.parameters);
    if c.name == STATUS && context.message.Response? && 100 <= context.message.status <= 599 {
      var t := Decimal(context.message.status);
      ParseDecimal(context.message.status);
      Pow10Values();
      DecimalLength(context.message.status, 3);
      DecimalLength(context.message.status, 2);
      assert ComponentValue(context, c) == Ok(t);
    }
  }

  /** A value must be ASCII on one line. */
  function AsLine(r: Core<Text>): Core<Text> {
    if r.Ok? && !(forall i | 0 <= i < |r.value| :: r.value[i] <= 127 && r.value[i] != 10 && r.value[i] != 13)
    then Err(Malformed) else r
  }

  // ---------------------------------------------------------------- fields

  /** The lines of a field in a message. */
  function LinesOf(m: Message, name: Text): seq<seq<Byte>> { if name in m.headers then m.headers[name] else [] }

  function JoinedLines(lines: seq<seq<Byte>>): Text {
    if lines == [] then [] else if |lines| == 1 then lines[0] else JoinedLines(lines[..|lines| - 1]) + [44, 32] + lines[|lines| - 1]
  }

  lemma FieldIsOfMessage(context: Context, c: Component)
    requires FlagsOf(c).Ok? && !HasKey(c.parameters, REQ) && !Derived(c.name)
    ensures ComponentValue(context, c)
         == AsLine(FieldValue(context, context.message.headers, c.name, FlagsOf(c).value))
    ensures FlagsOf(c).value == MeantFlags(c.parameters) && FlagsOf(c).value.name.None?
  {
    FlagsMeaning(c.parameters);
  }

  /** Joining after some lines, with a comma and a space before every line but the very first. */
  function Tail(values: seq<seq<Byte>>, first: bool): Text {
    if values == [] then [] else (if first then [] else [44, 32]) + values[0] + Tail(values[1..], false)
  }

  lemma {:induction false} CombinedMeaning(limits: CoreLimits, values: seq<seq<Byte>>, sofar: Text, first: bool)
    requires |sofar| <= limits.maxMessageHeaderBytes
    ensures var r := CombinedFrom(limits, values, sofar, first);
      && (r.Ok? <==> |sofar + Tail(values, first)| <= limits.maxMessageHeaderBytes)
      && (r.Ok? ==> r.value == sofar + Tail(values, first))
      && (r.Err? ==> r.error.LimitHit? && r.error.limit == MaxHeaderBytes)
    decreases |values|
  {
    if values == [] {
      assert sofar + [] == sofar;
    } else {
      var lead: Text := if first then [] else [44, 32];
      var head: Text := lead + values[0];
      var next := sofar + lead + values[0];
      assert next == sofar + head;
      assert sofar + (head + Tail(values[1..], false)) == (sofar + head) + Tail(values[1..], false);
      if |next| <= limits.maxMessageHeaderBytes {
        CombinedMeaning(limits, values[1..], next, false);
      }
    }
  }

  lemma {:induction false} TailAppend(values: seq<seq<Byte>>, v: seq<Byte>, first: bool)
    requires values != [] || !first
    ensures Tail(values + [v], first) == Tail(values, first) + [44, 32] + v
    decreases |values|
  {
    if values == [] {
      assert (values + [v])[1..] == [];
      assert Tail([v], first) == [44, 32] + v + Tail([], false);
    } else {
      assert (values + [v])[1..] == values[1..] + [v];
      TailAppend(values[1..], v, false);
      var head: Text := (if first then [] else [44, 32]) + values[0];
      assert head + (Tail(values[1..], false) + [44, 32] + v) == (head + Tail(values[1..], false)) + [44, 32] + v;
    }
  }

  lemma {:induction false} TailIsJoined(lines: seq<seq<Byte>>)
    ensures Tail(lines, true) == JoinedLines(lines)
  {
    if |lines| == 1 {
      assert lines[1..] == [];
      assert [] + lines[0] + [] == lines[0];
    } else if lines != [] {
      var init, last := lines[..|lines| - 1], lines[|lines| - 1];
      TailIsJoined(init);
      TailAppend(init, last, true);
      assert lines == init + [last];
    }
  }

  /** The combined lines of a field: their bytes joined by a comma and a space, if they fit and are ASCII. */
  lemma JoinedMeaning(limits: CoreLimits, lines: seq<seq<Byte>>)
    ensures var joined := CombinedFrom(limits, lines, [], true);
      && (joined.Ok? <==> |JoinedLines(lines)| <= limits.maxMessageHeaderBytes)
      && (joined.Ok? ==> joined.value == JoinedLines(lines))
      && (joined.Err? ==> joined.error.LimitHit? && joined.error.limit == MaxHeaderBytes)
  {
    CombinedMeaning(limits, lines, [], true);
    TailIsJoined(lines);
    assert [] + JoinedLines(lines) == JoinedLines(lines);
  }

  /** A field without parameters is its lines, joined. */
  lemma PlainField(context: Context, c: Component)
    requires c.parameters == [] && !Derived(c.name)
    ensures var lines := LinesOf(context.message, c.name); var joined := JoinedLines(lines);
      var v := ComponentValue(context, c);
      if lines == [] then v == Err(MissingComponent)
      else if |joined| > context.limits.maxMessageHeaderBytes then v.Err? && v.error.LimitHit? && v.error.limit == MaxHeaderBytes
      else v == AsLine(Ok(joined))
  {
    JoinedMeaning(context.limits, LinesOf(context.message, c.name));
    FieldIsOfMessage(context, c);
  }

  // ---------------------------------------------------------------- structured fields

  /** The lines are there, fit together and are ASCII. */
  predicate Combinable(context: Context, name: Text) {
    var joined := JoinedLines(LinesOf(context.message, name));
    && LinesOf(context.message, name) != [] && |joined| <= context.limits.maxMessageHeaderBytes
    && forall i | 0 <= i < |joined| :: joined[i] <= 127
  }

  /** Why a field has no structured value before it is even parsed. */
  lemma FieldFails(context: Context, c: Component)
    requires FlagsOf(c).Ok? && !HasKey(c.parameters, REQ) && !HasKey(c.parameters, BS) && !Derived(c.name)
    ensures var lines, v := LinesOf(context.message, c.name), ComponentValue(context, c);
      && (lines == [] ==> v == Err(MissingComponent))
      && (lines != [] && |JoinedLines(lines)| > context.limits.maxMessageHeaderBytes ==>
            v.Err? && v.error.LimitHit? && v.error.limit == MaxHeaderBytes)
      && (lines != [] && |JoinedLines(lines)| <= context.limits.maxMessageHeaderBytes && !Combinable(context, c.name) ==>
            v == Err(Malformed))
      && (Combinable(context, c.name) && (HasKey(c.parameters, SF) || HasKey(c.parameters, KEY)) ==>
            && (c.name !in context.fieldTypes ==> v == Err(Unsupported))
            && (c.name in context.fieldTypes && HasKey(c.parameters, KEY) && context.fieldTypes[c.name] != DictionaryType ==>
                  v == Err(Malformed)))
  {
    hide SfParse.ParsedField, SfSerializer.Serialized, MemberSerialized;
    JoinedMeaning(context.limits, LinesOf(context.message, c.name));
    FieldIsOfMessage(context, c);
    KeyIsStr(c);
  }

  /** The parameters `key` and `name` have values once they are accepted. */
  lemma KeyIsStr(c: Component)
    requires FlagsOf(c).Ok?
    ensures HasKey(c.parameters, KEY) <==> StrOf(c.parameters, KEY).Some?
  {
    FlagsMeaning(c.parameters);
    LastValueHas(c.parameters, KEY);
  }

  lemma {:induction false} LastValueHas(ps: Parameters, k: Text)
    ensures HasKey(ps, k) <==> SfParse.LastValue(ps, k).Some?
    ensures SfParse.LastValue(ps, k).Some? ==> exists i :: 0 <= i < |ps| && ps[i] == Pair(k, SfParse.LastValue(ps, k).value)
  {
    if ps != [] {
      var init := ps[..|ps| - 1];
      LastValueHas(init, k);
      assert forall i | 0 <= i < |init| :: init[i] == ps[i];
      if ps[|ps| - 1].key == k {
        assert ps[|ps| - 1] == Pair(k, ps[|ps| - 1].value);
      }
    }
  }

  predicate Readable(lim: Limits, text: Text, f: SfModel.Field) {
    SfParse.ParsedField(lim.(maxInputBytes := |text|), text, TypeOf(f)) == Ok(f)
  }

  lemma CanonicalIsReadable(lim: Limits, f: SfModel.Field)
    requires Valid(f) && Fits(lim, f)
    ensures Readable(lim, FieldText(f), f)
    ensures AsLine(Ok(FieldText(f))) == Ok(FieldText(f))
  {
    hide SfParse.ParsedField, FieldText, Valid;
    var wide := lim.(maxInputBytes := |FieldText(f)|);
    SameFit(lim, wide, f);
    SfRoundTrip.CanonicalParses(wide, f);
    SfRoundTrip.PrintableField(f);
  }

  /** Only the length of the text depends on the limit of the input. */
  lemma SameFit(lim: Limits, wide: Limits, f: SfModel.Field)
    requires Valid(f) && wide == lim.(maxInputBytes := wide.maxInputBytes)
    ensures Fits(lim, f) <==> Fits(wide, f)
  {
    match f {
      case ItemField(i) => SameItemFit(lim, wide, i);
      case ListField(ms) =>
        forall k | 0 <= k < |ms| ensures MemberFits(lim, ms[k]) <==> MemberFits(wide, ms[k]) {
          SameMemberFit(lim, wide, ms[k]);
        }
      case DictionaryField(es) =>
        forall k | 0 <= k < |es| ensures MemberFits(lim, es[k].value) <==> MemberFits(wide, es[k].value) {
          SameMemberFit(lim, wide, es[k].value);
        }
    }
  }

  lemma SameItemFit(lim: Limits, wide: Limits, i: Item)
    requires ValidItem(i) && wide == lim.(maxInputBytes := wide.maxInputBytes)
    ensures ItemFits(lim, i) <==> ItemFits(wide, i)
  {
  }

  lemma SameMemberFit(lim: Limits, wide: Limits, m: Member)
    requires ValidMember(m) && wide == lim.(maxInputBytes := wide.maxInputBytes)
    ensures MemberFits(lim, m) <==> MemberFits(wide, m)
  {
    if m.InnerList? {
      forall k | 0 <= k < |m.items| ensures ItemFits(lim, m.items[k]) <==> ItemFits(wide, m.items[k]) {
        SameItemFit(lim, wide, m.items[k]);
      }
    }
  }

  lemma SerializedOr(lim: Limits, f: SfModel.Field)
    requires Valid(f) && Fits(lim, f)
    ensures var r := SfSerializer.Serialized(lim, f);
      if |FieldText(f)| <= lim.maxOutputBytes then r == Ok(FieldText(f)) else r.Err?
  {
    hide Valid, Fits, FieldText, SfSerializer.Serialized;
    SfSerialized.SerializationSucceeds(lim, f);
  }

  /** With `sf`, the value is the canonical text of what the joined lines parse to, and parses to the same again. */
  lemma StructuredField(context: Context, c: Component)
    requires FlagsOf(c).Ok? && !HasKey(c.parameters, REQ) && !HasKey(c.parameters, KEY) && HasKey(c.parameters, SF)
    requires !Derived(c.name) && Combinable(context, c.name) && c.name in context.fieldTypes
    ensures var lim, v := context.limits.structuredFields, ComponentValue(context, c);
      match SfParse.ParsedField(lim, JoinedLines(LinesOf(context.message, c.name)), context.fieldTypes[c.name])
      case Err(e) => v == WithSfErrors<Text>(Err(e))
      case Ok(field) =>
        && TypeOf(field) == context.fieldTypes[c.name]
        && Valid(field)
        && if |FieldText(field)| <= lim.maxOutputBytes then v == Ok(FieldText(field)) && Readable(lim, v.value, field) else v.Err?
  {
    hide SfParse.ParsedField, SfSerializer.Serialized, MemberSerialized, FieldText, Valid, Fits, JoinedLines, Readable;
    var lim, joined := context.limits.structuredFields, JoinedLines(LinesOf(context.message, c.name));
    JoinedMeaning(context.limits, LinesOf(context.message, c.name));
    FieldIsOfMessage(context, c);
    KeyIsStr(c);
    FlagsMeaning(c.parameters);
    var parsed := SfParse.ParsedField(lim, joined, context.fieldTypes[c.name]);
    if parsed.Ok? {
      SfParsed.ParsedIsSerializable(lim, joined, context.fieldTypes[c.name], parsed.value);
      SerializedOr(lim, parsed.value);
      CanonicalIsReadable(lim, parsed.value);
    }
  }

  lemma {:induction false} MemberWithin(es: seq<Pair<Member>>, i: nat)
    requires i < |es|
    ensures MemberOccurrences(es[i].value) <= EntriesOccurrences(es)
  {
    hide MemberOccurrences;
    if i > 0 {
      MemberWithin(es[1..], i - 1);
    }
  }

  /** A member of a dictionary that fits is a list of one member that fits. */
  lemma MemberAlone(lim: Limits, es: seq<Pair<Member>>, i: nat)
    requires Valid(DictionaryField(es)) && Fits(lim, DictionaryField(es)) && i < |es|
    ensures var f := ListField([es[i].value]);
      Valid(f) && Fits(lim, f) && FieldText(f) == MemberText(es[i].value) && SfSerialized.MemberOk(lim, es[i].value)
    ensures MemberOccurrences(es[i].value) <= lim.maxTotalOccurrences
  {
    hide ValidMember, MemberFits, MemberText, MemberOccurrences;
    var m := es[i].value;
    MemberWithin(es, i);
    assert [m][1..] == [];
    assert [] + MemberText(m) + [] == MemberText(m);
    assert MembersText([m], true) == MemberText(m);
    assert MembersOccurrences([m]) == MemberOccurrences(m);
  }

  lemma MemberSerializedOr(lim: Limits, m: Member)
    requires SfSerialized.MemberOk(lim, m) && MemberOccurrences(m) <= lim.maxTotalOccurrences
    ensures var r := MemberSerialized(lim, m);
      if |MemberText(m)| <= lim.maxOutputBytes then r == Ok(MemberText(m)) else r.Err?
  {
    hide SfSerialized.MemberOk, MemberText, SfSerializer.WriteMember, MemberOccurrences;
    SfSerialized.WriteMemberMeaning(lim, SfSerializer.EMPTY, m);
    assert [] + MemberText(m) == MemberText(m);
  }

  /** With `key`, the value is the member under that key of the dictionary the lines parse to, and parses to it again. */
  lemma DictionaryMember(context: Context, c: Component)
    requires FlagsOf(c).Ok? && !HasKey(c.parameters, REQ) && HasKey(c.parameters, KEY) && StrOf(c.parameters, KEY).Some?
    requires !Derived(c.name) && Combinable(context, c.name)
    requires c.name in context.fieldTypes && context.fieldTypes[c.name] == DictionaryType
    ensures var lim, v, key := context.limits.structuredFields, ComponentValue(context, c), StrOf(c.parameters, KEY).value;
      match SfParse.ParsedField(lim, JoinedLines(LinesOf(context.message, c.name)), DictionaryType)
      case Err(e) => v == WithSfErrors<Text>(Err(e))
      case Ok(field) =>
        && field.DictionaryField?
        && (!HasKey(field.entries, key) ==> v == Err(MissingComponent))
        && forall i | 0 <= i < |field.entries| && field.entries[i].key == key ::
             var m := field.entries[i].value;
             && ValidMember(m)
             && if |MemberText(m)| <= lim.maxOutputBytes
                then v == Ok(MemberText(m)) && Readable(lim, v.value, ListField([m])) else v.Err?
  {
    hide SfParse.ParsedField, SfSerializer.Serialized, MemberSerialized, MemberText, ValidMember, JoinedLines, Readable,
         MemberFits, MemberOccurrences;
    var lim, joined := context.limits.structuredFields, JoinedLines(LinesOf(context.message, c.name));
    JoinedMeaning(context.limits, LinesOf(context.message, c.name));
    FieldIsOfMessage(context, c);
    KeyIsStr(c);
    var parsed := SfParse.ParsedField(lim, joined, DictionaryType);
    if parsed.Ok? {
      SfParsed.ParsedIsSerializable(lim, joined, DictionaryType, parsed.value);
      var es := parsed.value.entries;
      forall i | 0 <= i < |es| && es[i].key == StrOf(c.parameters, KEY).value
        ensures ValidMember(es[i].value)
        ensures var v := ComponentValue(context, c);
          if |MemberText(es[i].value)| <= lim.maxOutputBytes
          then v == Ok(MemberText(es[i].value)) && Readable(lim, v.value, ListField([es[i].value])) else v.Err?
      {
        MemberAlone(lim, es, i);
        MemberSerializedOr(lim, es[i].value);
        CanonicalIsReadable(lim, ListField([es[i].value]));
        assert SfParse.IndexOf(es, es[i].key) == i;
      }
    }
  }

  // ---------------------------------------------------------------- binary wrapping

  function BinaryMembers(lines: seq<seq<Byte>>): seq<Member> {
    seq(|lines|, i requires 0 <= i < |lines| => ItemMember(Item(Bytes(lines[i]), [])))
  }

  /** The length of the list of the lines as byte sequences. */
  function BinarySize(lines: seq<seq<Byte>>, first: bool): nat {
    if lines == [] then 0
    else 2 + 4 * ((|lines[0]| + 2) / 3) + (if first then 0 else 2) + BinarySize(lines[1..], false)
  }

  lemma EncodedLength(n: nat)
    ensures (n * 8 + 5) / 6 + (3 - n % 3) % 3 == 4 * ((n + 2) / 3)
  {
    var q, r := n / 3, n % 3;
    assert n == 3 * q + r;
    if r == 0 {
      assert (n * 8 + 5) / 6 == 4 * q;
    } else if r == 1 {
      assert (n * 8 + 5) / 6 == 4 * q + 2;
    } else {
      assert (n * 8 + 5) / 6 == 4 * q + 3;
    }
  }

  lemma BytesLength(b: seq<Byte>)
    ensures |BareText(Bytes(b))| == 2 + 4 * ((|b| + 2) / 3)
    ensures MemberText(ItemMember(Item(Bytes(b), []))) == BareText(Bytes(b))
  {
    EncodedLength(|b|);
  }

  lemma {:induction false} BinaryLength(lines: seq<seq<Byte>>, first: bool)
    ensures |MembersText(BinaryMembers(lines), first)| == BinarySize(lines, first)
  {
    hide BareText, MemberText;
    if lines != [] {
      BinaryLength(lines[1..], false);
      BytesLength(lines[0]);
      assert BinaryMembers(lines)[1..] == BinaryMembers(lines[1..]);
    }
  }

  lemma {:induction false} CheckBinaryMeaning(limits: CoreLimits, values: seq<seq<Byte>>, size: nat, first: bool)
    requires size <= limits.maxSignatureBaseBytes
    ensures CheckBinary(limits, values, size, first).Ok? <==> size + BinarySize(values, first) <= limits.maxSignatureBaseBytes
    decreases |values|
  {
    if values != [] {
      var next := size + 2 + 4 * ((|values[0]| + 2) / 3) + if first then 0 else 2;
      if next <= limits.maxSignatureBaseBytes {
        CheckBinaryMeaning(limits, values[1..], next, false);
      }
    }
  }

  lemma {:induction false} BinaryOccurrences(lines: seq<seq<Byte>>)
    ensures MembersOccurrences(BinaryMembers(lines)) == |lines|
  {
    if lines != [] {
      BinaryOccurrences(lines[1..]);
      assert BinaryMembers(lines)[1..] == BinaryMembers(lines[1..]);
    }
  }

  lemma BinaryFits(lim: Limits, lines: seq<seq<Byte>>)
    ensures var f := ListField(BinaryMembers(lines));
      && Valid(f)
      && (Fits(lim, f) <==> |lines| <= lim.maxMembers && |lines| <= lim.maxTotalOccurrences
                            && forall i | 0 <= i < |lines| :: |lines[i]| <= lim.maxDecodedBytes)
  {
    BinaryOccurrences(lines);
    var ms := BinaryMembers(lines);
    assert forall i | 0 <= i < |ms| :: ValidMember(ms[i]);
    assert forall i | 0 <= i < |ms| :: MemberFits(lim, ms[i]) <==> |lines[i]| <= lim.maxDecodedBytes;
  }

  /**
   * With `bs`, the value is a list that parses to the bytes of the lines, one byte sequence for each; there
   * is one exactly if there are lines, every one can be decoded within the limits, and the text fits.
   */
  lemma BinaryField(context: Context, c: Component)
    requires FlagsOf(c).Ok? && !HasKey(c.parameters, REQ) && HasKey(c.parameters, BS) && !Derived(c.name)
    ensures var lim, v, lines := context.limits.structuredFields, ComponentValue(context, c), LinesOf(context.message, c.name);
      var f := ListField(BinaryMembers(lines));
      && (lines == [] ==> v == Err(MissingComponent))
      && (v.Ok? <==>
            && lines != [] && |lines| <= lim.maxMembers && |lines| <= lim.maxTotalOccurrences
            && (forall i | 0 <= i < |lines| :: |lines[i]| <= lim.maxDecodedBytes)
            && BinarySize(lines, true) <= lim.maxOutputBytes && BinarySize(lines, true) <= context.limits.maxSignatureBaseBytes)
      && (v.Ok? ==> Readable(lim, v.value, f) && |v.value| == BinarySize(lines, true))
  {
    hide SfParse.ParsedField, SfSerializer.Serialized, MemberSerialized, Valid, Fits, Readable, BinaryMembers, MembersText;
    var lim, lines := context.limits.structuredFields, LinesOf(context.message, c.name);
    FieldIsOfMessage(context, c);
    FlagsMeaning(c.parameters);
    CheckBinaryMeaning(context.limits, lines, 0, true);
    BinaryFits(lim, lines);
    BinaryLength(lines, true);
    var f := ListField(BinaryMembers(lines));
    SfSerialized.SerializationSucceeds(lim, f);
    if Fits(lim, f) {
      CanonicalIsReadable(lim, f);
    }
    assert BinaryMembers(lines) == seq(|lines|, i requires 0 <= i < |lines| => ItemMember(Item(Bytes(lines[i]), []))) by {
      BinaryMembersAre(lines);
    }
  }

  lemma BinaryMembersAre(lines: seq<seq<Byte>>)
    ensures BinaryMembers(lines) == seq(|lines|, i requires 0 <= i < |lines| => ItemMember(Item(Bytes(lines[i]), [])))
  {
  }

  // ---------------------------------------------------------------- when there is a base

  predicate NoDates(ps: Parameters) { forall i | 0 <= i < |ps| :: !ps[i].value.Date? && !ps[i].value.DisplayString? }

  /** A field name without capital letters, or an at sign and letters, digits and hyphens beginning with a letter. */
  predicate ComponentName(name: Text) {
    if name != [] && name[0] == 64 then
      && name != SIGNATURE_PARAMS && |name| >= 2 && SfGrammar.Lower(name[1])
      && forall i | 2 <= i < |name| :: SfGrammar.Lower(name[i]) || SfGrammar.Figure(name[i]) || name[i] == 45
    else
      && name != []
      && forall i | 0 <= i < |name| :: SfGrammar.Lower(name[i]) || SfGrammar.Figure(name[i]) || SfGrammar.Mark(name[i])
  }

  lemma NamesAgree(name: Text)
    ensures ComponentName(name) <==> ValidName(name)
  {
    assert forall c: int :: TokenRest(c) && c != 58 && c != 47 && !(65 <= c <= 90)
                            <==> SfGrammar.Lower(c) || SfGrammar.Figure(c) || SfGrammar.Mark(c);
  }

  /** A signature input the profile accepts, whatever the message. */
  predicate Acceptable(limits: CoreLimits, input: SignatureInput) {
    var labelled := DictionaryField([Pair(input.signatureLabel, SignedList(input))]);
    && |input.components| <= limits.maxComponentsPerSignature
    && |input.parameters| <= limits.maxParameters && NoDates(input.parameters)
    && (forall i | 0 <= i < |input.parameters| :: WellTyped(input.parameters[i]))
    && (forall i | 0 <= i < |input.components| :: var c := input.components[i];
          ComponentName(c.name) && |c.parameters| <= limits.maxParameters && NoDates(c.parameters))
    && Valid(labelled) && Fits(limits.structuredFields, labelled)
    && |FieldText(labelled)| <= limits.structuredFields.maxOutputBytes
  }

  lemma {:induction false} ComponentsChecked(limits: CoreLimits, cs: seq<Component>)
    ensures CheckComponents(limits, cs).Ok? <==> forall i | 0 <= i < |cs| ::
              ComponentName(cs[i].name) && |cs[i].parameters| <= limits.maxParameters && NoDates(cs[i].parameters)
  {
    hide ValidName, ComponentName;
    if cs != [] {
      NamesAgree(cs[0].name);
      ComponentsChecked(limits, cs[1..]);
      ParametersChecked(limits, cs[0].parameters);
      assert forall i | 0 < i < |cs| :: cs[i] == cs[1..][i - 1];
    }
  }

  lemma ParametersChecked(limits: CoreLimits, ps: Parameters)
    ensures CheckParameters(limits, ps).Ok? <==> |ps| <= limits.maxParameters && NoDates(ps)
  {
  }

  lemma SfErrorsKeep<T>(r: SfModel.Outcome<T>)
    ensures WithSfErrors(r).Ok? <==> r.Ok?
    ensures r.Ok? ==> WithSfErrors(r) == Ok(r.value)
  {
  }

  lemma InputChecked(limits: CoreLimits, input: SignatureInput)
    ensures CheckInput(limits, input).Ok? <==> Acceptable(limits, input)
  {
    hide ValidName, ComponentName, WellTyped, SfSerializer.Serialized, Valid, Fits, FieldText, NoDates, CheckParameters, CheckComponents;
    var labelled := DictionaryField([Pair(input.signatureLabel, SignedList(input))]);
    ParametersChecked(limits, input.parameters);
    ComponentsChecked(limits, input.components);
    SfSerialized.SerializationSucceeds(limits.structuredFields, labelled);
    SfErrorsKeep(SfSerializer.Serialized(limits.structuredFields, labelled));
  }

  lemma {:induction false} ItemsLength(items: seq<Item>, first: bool, i: nat)
    requires (forall k | 0 <= k < |items| :: ValidItem(items[k])) && i < |items|
    ensures |ItemText(items[i])| <= |ItemsText(items, first)|
    ensures ItemOccurrences(items[i]) <= ItemsOccurrences(items)
  {
    hide ItemText, ValidItem;
    if i > 0 {
      ItemsLength(items[1..], false, i - 1);
    }
  }

  /** The signed list and every identifier can be written once the labelled list can. */
  lemma PartsAreWritten(limits: CoreLimits, input: SignatureInput)
    requires Acceptable(limits, input)
    ensures ValidMember(SignedList(input))
    ensures MemberSerialized(limits.structuredFields, SignedList(input)) == Ok(MemberText(SignedList(input)))
    ensures forall i | 0 <= i < |input.components| :: ValidItem(ItemOf(input.components[i]))
              && MemberSerialized(limits.structuredFields, ItemMember(ItemOf(input.components[i])))
                 == Ok(ItemText(ItemOf(input.components[i])))
  {
    hide ValidItem, ItemText, MemberFits, ItemFits, ItemsText, ParametersText, ComponentName, WellTyped, ValidParameters;
    var lim, m := limits.structuredFields, SignedList(input);
    var es := [Pair(input.signatureLabel, m)];
    MemberAlone(lim, es, 0);
    LabelledLength(input.signatureLabel, m);
    MemberSerializedOr(lim, m);
    var items := ItemsOf(input.components);
    SfSerialized.InnerListOk(lim, items, input.parameters);
    forall i | 0 <= i < |input.components|
      ensures ValidItem(ItemOf(input.components[i]))
      ensures MemberSerialized(lim, ItemMember(ItemOf(input.components[i]))) == Ok(ItemText(ItemOf(input.components[i])))
    {
      assert items[i] == ItemOf(input.components[i]) && SfSerialized.ItemOk(lim, items[i]);
      ItemsLength(items, true, i);
      ListLength(items, input.parameters);
      ItemAlone(lim, items[i]);
      MemberSerializedOr(lim, ItemMember(items[i]));
    }
  }

  lemma ItemAlone(lim: Limits, i: Item)
    requires SfSerialized.ItemOk(lim, i)
    ensures var m := ItemMember(i);
      SfSerialized.MemberOk(lim, m) && MemberOccurrences(m) == ItemOccurrences(i) && MemberText(m) == ItemText(i)
  {
    hide ItemText, ValidItem, ItemFits;
  }

  lemma ListLength(items: seq<Item>, ps: Parameters)
    requires ValidMember(InnerList(items, ps))
    ensures |ItemsText(items, true)| <= |MemberText(InnerList(items, ps))|
  {
    hide ItemsText, ParametersText, ValidItem, ValidParameters, ValidValues;
  }

  lemma LabelledLength(label_: Text, m: Member)
    requires ValidMember(m) && m.InnerList?
    requires Valid(DictionaryField([Pair(label_, m)]))
    ensures |MemberText(m)| <= |FieldText(DictionaryField([Pair(label_, m)]))|
  {
    hide MemberText, ValidMember;
    var es := [Pair(label_, m)];
    assert es[1..] == [];
  }

  ghost predicate AllValues(context: Context, cs: seq<Component>) { forall i | 0 <= i < |cs| :: ComponentValue(context, cs[i]).Ok? }

  ghost predicate AllIdentified(context: Context, cs: seq<Component>) {
    forall i | 0 <= i < |cs| :: ValidItem(ItemOf(cs[i])) && Identifier(context, cs[i]) == Ok(ItemText(ItemOf(cs[i])))
  }

  ghost predicate Unseen(context: Context, cs: seq<Component>, seen: set<Text>)
    requires AllIdentified(context, cs)
  {
    && (forall i | 0 <= i < |cs| :: Identifier(context, cs[i]).value !in seen)
    && (forall i, j | 0 <= i < j < |cs| :: Identifier(context, cs[i]).value != Identifier(context, cs[j]).value)
  }

  lemma UnseenSplits(context: Context, cs: seq<Component>, seen: set<Text>)
    requires cs != [] && AllIdentified(context, cs)
    ensures AllIdentified(context, cs[1..])
    ensures var id := Identifier(context, cs[0]).value;
      Unseen(context, cs, seen) <==> id !in seen && Unseen(context, cs[1..], seen + {id})
  {
    hide Identifier, ValidItem, ItemText;
    var rest := cs[1..];
    assert forall i | 0 < i < |cs| :: cs[i] == rest[i - 1];
    assert forall i | 0 <= i < |rest| :: rest[i] == cs[i + 1];
  }

  /** Lines are written exactly if no identifier repeats, every component has a value, and everything fits. */
  lemma {:induction false} LinesSucceed(context: Context, cs: seq<Component>, seen: set<Text>, sofar: Text)
    requires AllIdentified(context, cs) && |sofar| <= context.limits.maxSignatureBaseBytes
    ensures LinesFrom(context, cs, seen, sofar).Ok? <==>
              && Unseen(context, cs, seen) && AllValues(context, cs)
              && |sofar| + |Lines(cs, Values(context, cs))| <= context.limits.maxSignatureBaseBytes
    decreases |cs|
  {
    hide Identifier, ValidItem, ItemText, ComponentValue, Unseen;
    if cs == [] {
      NothingUnseen(context, seen);
    } else {
      var identifier, v := Identifier(context, cs[0]).value, ComponentValue(context, cs[0]);
      UnseenSplits(context, cs, seen);
      if v.Ok? {
        var line := Line(identifier, v.value);
        var next := sofar + line;
        ValuesSplit(context, cs);
        if |next| <= context.limits.maxSignatureBaseBytes {
          LinesSucceed(context, cs[1..], seen + {identifier}, next);
        }
      }
    }
  }

  lemma NothingUnseen(context: Context, seen: set<Text>)
    ensures Unseen(context, [], seen) && |Lines([], [])| == 0 && Values(context, []) == []
  {
  }

  lemma ValuesSplit(context: Context, cs: seq<Component>)
    requires cs != [] && ComponentValue(context, cs[0]).Ok? && AllIdentified(context, cs)
    ensures AllValues(context, cs) <==> AllValues(context, cs[1..])
    ensures AllValues(context, cs) ==>
              |Lines(cs, Values(context, cs))|
              == |Line(Identifier(context, cs[0]).value, ComponentValue(context, cs[0]).value)| + |Lines(cs[1..], Values(context, cs[1..]))|
  {
    hide Identifier, ValidItem, ItemText, ComponentValue;
    var rest := cs[1..];
    assert forall i | 0 < i < |cs| :: cs[i] == rest[i - 1];
    assert forall i | 0 <= i < |rest| :: rest[i] == cs[i + 1];
    if AllValues(context, cs) {
      assert Values(context, cs)[1..] == Values(context, rest);
    }
  }

  lemma DistinctIdentifiers(context: Context, cs: seq<Component>)
    requires AllIdentified(context, cs)
    ensures Unseen(context, cs, {}) <==> forall i, j | 0 <= i < j < |cs| :: cs[i] != cs[j]
  {
    hide Identifier, ValidItem, ItemText;
    if forall i, j | 0 <= i < j < |cs| :: cs[i] != cs[j] {
      forall i, j | 0 <= i < j < |cs| ensures Identifier(context, cs[i]).value != Identifier(context, cs[j]).value {
        if Identifier(context, cs[i]).value == Identifier(context, cs[j]).value {
          SameIdentifier(cs[i], cs[j]);
        }
      }
    }
  }

  lemma SameIdentifier(c: Component, d: Component)
    requires ValidItem(ItemOf(c)) && ValidItem(ItemOf(d)) && ItemText(ItemOf(c)) == ItemText(ItemOf(d))
    ensures c == d
  {
    hide ItemText, ValidItem;
    SfRoundTrip.MemberTextIsInjective(ItemMember(ItemOf(c)), ItemMember(ItemOf(d)));
  }

  lemma PrintableLines(context: Context, cs: seq<Component>)
    requires AllIdentified(context, cs) && AllValues(context, cs)
    ensures IsAscii(Lines(cs, Values(context, cs)))
    decreases |cs|
  {
    hide Identifier, ValidItem, ItemText, FlagsOf, RawValue;
    if cs != [] {
      AsciiItem(cs[0]);
      PrintableLines(context, cs[1..]);
      assert Values(context, cs)[1..] == Values(context, cs[1..]);
      AsciiConcat(ItemText(ItemOf(cs[0])), [58, 32]);
      AsciiConcat(ItemText(ItemOf(cs[0])) + [58, 32], ComponentValue(context, cs[0]).value);
      AsciiConcat(ItemText(ItemOf(cs[0])) + [58, 32] + ComponentValue(context, cs[0]).value, [10]);
      AsciiConcat(Line(ItemText(ItemOf(cs[0])), ComponentValue(context, cs[0]).value), Lines(cs[1..], Values(context, cs[1..])));
    }
  }

  lemma AsciiItem(c: Component)
    requires ValidItem(ItemOf(c))
    ensures IsAscii(ItemText(ItemOf(c)))
  {
    hide ItemText, ValidItem;
    SfRoundTrip.PrintableItem(ItemOf(c));
  }

  lemma AsciiMember(m: Member)
    requires ValidMember(m)
    ensures IsAscii(MemberText(m))
  {
    hide MemberText, ValidMember;
    SfRoundTrip.PrintableMember(m);
  }

  lemma AsciiConcat(a: Text, b: Text)
    requires IsAscii(a) && IsAscii(b)
    ensures IsAscii(a + b)
  {
  }

  lemma AsciiBase(lines: Text, m: Member)
    requires IsAscii(lines) && ValidMember(m)
    ensures IsAscii(lines + PREFIX + MemberText(m))
  {
    hide MemberText, ValidMember;
    AsciiMember(m);
    AsciiConcat(lines, PREFIX);
    AsciiConcat(lines + PREFIX, MemberText(m));
  }

  /**
   * There is a base exactly if the input is acceptable to the profile, no component is covered twice, every
   * component has a value in the message, and the whole text fits.
   */
  lemma BaseSucceeds(context: Context, input: SignatureInput)
    ensures Base(context, input).Ok? <==>
      && Acceptable(context.limits, input)
      && (forall i, j | 0 <= i < j < |input.components| :: input.components[i] != input.components[j])
      && (forall i | 0 <= i < |input.components| :: ComponentValue(context, input.components[i]).Ok?)
      && BaseLength(context, input) <= context.limits.maxSignatureBaseBytes
  {
    hide Acceptable, CheckInput, MemberSerialized, ValidMember, MemberText, LinesFrom, ComponentValue, Unseen, Lines,
         Identifier, ValidItem, ItemText, IsAscii;
    InputChecked(context.limits, input);
    if Acceptable(context.limits, input) {
      PartsAreWritten(context.limits, input);
      Identified(context, input);
      DistinctIdentifiers(context, input.components);
      LinesSucceed(context, input.components, {}, []);
      SfErrorsKeep(MemberSerialized(context.limits.structuredFields, SignedList(input)));
      if LinesFrom(context, input.components, {}, []).Ok? {
        LinesMeaning(context, input.components, {}, []);
        PrintableLines(context, input.components);
        AsciiBase(Lines(input.components, Values(context, input.components)), SignedList(input));
        assert [] + Lines(input.components, Values(context, input.components)) == Lines(input.components, Values(context, input.components));
      }
    }
  }

  lemma Identified(context: Context, input: SignatureInput)
    requires Acceptable(context.limits, input)
    ensures AllIdentified(context, input.components)
  {
    hide Acceptable, ValidItem, ItemText, MemberSerialized;
    PartsAreWritten(context.limits, input);
    forall i | 0 <= i < |input.components|
      ensures Identifier(context, input.components[i]) == Ok(ItemText(ItemOf(input.components[i])))
    {
      SfErrorsKeep(MemberSerialized(context.limits.structuredFields, ItemMember(ItemOf(input.components[i]))));
    }
  }

  /** The length of the base that is to be written, if every part of it is there. */
  function BaseLength(context: Context, input: SignatureInput): nat {
    if ValidMember(SignedList(input)) && (forall i | 0 <= i < |input.components| ::
         ValidItem(ItemOf(input.components[i])) && ComponentValue(context, input.components[i]).Ok?)
    then |Lines(input.components, Values(context, input.components))| + |PREFIX| + |MemberText(SignedList(input))|
    else 0
  }
}
