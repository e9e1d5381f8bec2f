/**
 * The signature base (RFC 9421, section 2.5): one line per covered component and a last line
 * with the signature parameters. The text determines everything that was signed.
 */
module SignatureBase {
  import opened Basics
  import opened Digits
  import opened SfModel
  import opened SfSerializer
  import SfSerialized
  import SfParse
  import SfRoundTrip

  datatype Component = Component(name: Text, parameters: Parameters)

  datatype SignatureInput = SignatureInput(signatureLabel: Text, components: seq<Component>, parameters: Parameters)

  /** Field lines by lower-case name, already validated and normalized, as bytes. */
  type Headers = map<Text, seq<seq<Byte>>>

  datatype Message = Request(headers: Headers) | Response(status: int, headers: Headers, request: Option<Headers>)

  datatype CoreLimits = CoreLimits(
    maxComponentsPerSignature: nat, maxParameters: nat, maxMessageHeaderBytes: nat, maxSignatureBaseBytes: nat,
    structuredFields: Limits)

  datatype CoreLimit = MaxComponents | MaxCoreParameters | MaxHeaderBytes | MaxBaseBytes | OfFields(name: LimitName)

  datatype CoreError = Malformed | Unsupported | MissingComponent | LimitHit(limit: CoreLimit, maximum: nat, observed: nat)

  type Core<+T> = Result<T, CoreError>

  /** What a base is computed from, besides the signature input. */
  datatype Context = Context(
    limits: CoreLimits,
    message: Message,
    fieldTypes: map<Text, FieldType>,
    /** The value of a derived request component, by name and query parameter name. */
    derived: (Text, Option<Text>) -> Core<Text>)

  function Check(maximum: nat, limit: CoreLimit, observed: nat): Core<()> {
    if observed > maximum then Err(LimitHit(limit, maximum, observed)) else Ok(())
  }

  function WithSfErrors<T>(r: SfModel.Outcome<T>): Core<T> {
    match r
    case Ok(v) => Ok(v)
    case Err(LimitExceeded(name, maximum, observed)) => Err(LimitHit(OfFields(name), maximum, observed))
    case Err(_) => Err(Malformed)
  }

  // ---------------------------------------------------------------- the inner list

  const REQ: Text := [114, 101, 113]
  const SF: Text := [115, 102]
  const BS: Text := [98, 115]
  const TR: Text := [116, 114]
  const KEY: Text := [107, 101, 121]
  const NAME: Text := [110, 97, 109, 101]
  const CREATED: Text := [99, 114, 101, 97, 116, 101, 100]
  const EXPIRES: Text := [101, 120, 112, 105, 114, 101, 115]
  const NONCE: Text := [110, 111, 110, 99, 101]
  const ALG: Text := [97, 108, 103]
  const KEYID: Text := [107, 101, 121, 105, 100]
  const TAG: Text := [116, 97, 103]
  const STATUS: Text := [64, 115, 116, 97, 116, 117, 115]
  const QUERY_PARAM: Text := [64, 113, 117, 101, 114, 121, 45, 112, 97, 114, 97, 109]
  const SIGNATURE_PARAMS: Text := [64, 115, 105, 103, 110, 97, 116, 117, 114, 101, 45, 112, 97, 114, 97, 109, 115]
  const PREFIX: Text := [34] + SIGNATURE_PARAMS + [34, 58, 32]

  predicate Derived(name: Text) { name != [] && name[0] == 64 }

  /** A lower-case field name, or a derived component name after its at sign. */
  predicate ValidName(name: Text) {
    && name != SIGNATURE_PARAMS
    && if Derived(name) then
         && |name| >= 2 && 97 <= name[1] <= 122
         && forall i | 1 <= i < |name| :: 97 <= name[i] <= 122 || IsDigit(name[i]) || name[i] == 45
       else
         name != [] && forall i | 0 <= i < |name| :: TokenRest(name[i]) && name[i] != 58 && name[i] != 47 && !(65 <= name[i] <= 90)
  }

  function CheckParameters(limits: CoreLimits, ps: Parameters): Core<()> {
    var _ :- Check(limits.maxParameters, MaxCoreParameters, |ps|);
    if exists i | 0 <= i < |ps| :: ps[i].value.Date? || ps[i].value.DisplayString? then Err(Unsupported) else Ok(())
  }

  predicate WellTyped(p: Pair<BareItem>) {
    && (p.key in {CREATED, EXPIRES} ==> p.value.Integer?)
    && (p.key in {NONCE, ALG, KEYID, TAG} ==> p.value.Str?)
  }

  function ItemOf(c: Component): Item { Item(Str(c.name), c.parameters) }

  function ItemsOf(cs: seq<Component>): seq<Item> { seq(|cs|, i requires 0 <= i < |cs| => ItemOf(cs[i])) }

  function CheckComponents(limits: CoreLimits, cs: seq<Component>): Core<()> {
    if cs == [] then Ok(())
    else if !ValidName(cs[0].name) then Err(Malformed)
    else
      var _ :- CheckParameters(limits, cs[0].parameters);
      CheckComponents(limits, cs[1..])
  }

  function SignedList(input: SignatureInput): Member { InnerList(ItemsOf(input.components), input.parameters) }

  function CheckInput(limits: CoreLimits, input: SignatureInput): Core<()> {
    var _ :- Check(limits.maxComponentsPerSignature, MaxComponents, |input.components|);
    var _ :- CheckParameters(limits, input.parameters);
    if exists i | 0 <= i < |input.parameters| :: !WellTyped(input.parameters[i]) then Err(Malformed)
    else
      var _ :- CheckComponents(limits, input.components);
      var labelled := DictionaryField([Pair(input.signatureLabel, SignedList(input))]);
      var _ :- WithSfErrors(Serialized(limits.structuredFields, labelled));
      Ok(())
  }

  function MemberSerialized(lim: Limits, m: Member): SfModel.Outcome<Text> {
    var out :- WriteMember(lim, EMPTY, m);
    Ok(out.text)
  }

  function SignatureParameters(limits: CoreLimits, input: SignatureInput): Core<Text> {
    var _ :- CheckInput(limits, input);
    WithSfErrors(MemberSerialized(limits.structuredFields, SignedList(input)))
  }

  // ---------------------------------------------------------------- component flags

  datatype Flags = Flags(req: bool, sf: bool, bs: bool, key: Option<Text>, name: Option<Text>)

  const NO_FLAGS := Flags(false, false, false, None, None)

  function AddFlag(flags: Flags, p: Pair<BareItem>): Core<Flags> {
    if p.key == TR then Err(Unsupported)
    else if p.key == REQ || p.key == SF || p.key == BS then
      if p.value != TRUE then Err(Malformed)
      else if p.key == REQ then Ok(flags.(req := true))
      else if p.key == SF then Ok(flags.(sf := true))
      else Ok(flags.(bs := true))
    else if p.key == KEY || p.key == NAME then
      if !p.value.Str? then Err(Malformed)
      else if p.key == KEY then Ok(flags.(key := Some(p.value.text)))
      else Ok(flags.(name := Some(p.value.text)))
    else Err(Unsupported)
  }

  function FlagsFrom(flags: Flags, ps: Parameters): Core<Flags>
    decreases |ps|
  {
    if ps == [] then Ok(flags)
    else
      var next :- AddFlag(flags, ps[0]);
      FlagsFrom(next, ps[1..])
  }

  /** Which flags make sense for which component. */
  predicate Coherent(name: Text, f: Flags) {
    && (Derived(name) ==> !f.sf && !f.bs && f.key.None?)
    && (f.name.Some? <==> name == QUERY_PARAM)
    && !(f.bs && (f.sf || f.key.Some?))
  }

  function FlagsOf(c: Component): Core<Flags> {
    var flags :- FlagsFrom(NO_FLAGS, c.parameters);
    if Coherent(c.name, flags) then Ok(flags) else Err(Malformed)
  }

  method ComponentFlags(c: Component) returns (r: Core<Flags>)
    ensures r == FlagsOf(c)
  {
    var flags := NO_FLAGS;
    for i := 0 to |c.parameters|
      invariant FlagsFrom(NO_FLAGS, c.parameters) == FlagsFrom(flags, c.parameters[i..])
    {
      assert c.parameters[i..][1..] == c.parameters[i + 1..];
      flags :- AddFlag(flags, c.parameters[i]);
    }
    var derived := Derived(c.name);
    if derived && (flags.sf || flags.bs || flags.key.Some?) { return Err(Malformed); }
    if (!derived || c.name != QUERY_PARAM) && flags.name.Some? { return Err(Malformed); }
    if c.name == QUERY_PARAM && flags.name.None? { return Err(Malformed); }
    if flags.bs && (flags.sf || flags.key.Some?) { return Err(Malformed); }
    r := Ok(flags);
  }

  /** A parameter the base understands, with a value of the right type. */
  predicate Understood(p: Pair<BareItem>) {
    || (p.key in {REQ, SF, BS} && p.value == TRUE)
    || (p.key in {KEY, NAME} && p.value.Str?)
  }

  function StrOf(ps: Parameters, k: Text): Option<Text> {
    var v := SfParse.LastValue(ps, k);
    if v.Some? && v.value.Str? then Some(v.value.text) else None
  }

  function MeantFlags(ps: Parameters): Flags {
    Flags(HasKey(ps, REQ), HasKey(ps, SF), HasKey(ps, BS), StrOf(ps, KEY), StrOf(ps, NAME))
  }

  lemma {:induction false} FlagsAppend(flags: Flags, ps: Parameters, p: Pair<BareItem>)
    ensures FlagsFrom(flags, ps + [p]) == match FlagsFrom(flags, ps) case Ok(f) => AddFlag(f, p) case Err(e) => Err(e)
    decreases |ps|
  {
    if ps == [] {
      assert (ps + [p])[1..] == [];
    } else {
      assert (ps + [p])[1..] == ps[1..] + [p];
      if AddFlag(flags, ps[0]).Ok? {
        FlagsAppend(AddFlag(flags, ps[0]).value, ps[1..], p);
      }
    }
  }

  lemma MeantAppend(init: Parameters, p: Pair<BareItem>)
    requires Understood(p)
    ensures AddFlag(MeantFlags(init), p) == Ok(MeantFlags(init + [p]))
  {
    var ps := init + [p];
    assert ps[|ps| - 1] == p && ps[..|ps| - 1] == init;
    forall k ensures HasKey(ps, k) <==> HasKey(init, k) || p.key == k {
      if p.key == k {
        assert ps[|init|].key == k;
      }
      if HasKey(init, k) {
        var i :| 0 <= i < |init| && init[i].key == k;
        assert ps[i].key == k;
      }
    }
  }

  /** Parameters are accepted exactly when each is understood; the flags say which are present, and with what value. */
  lemma {:induction false} FlagsMeaning(ps: Parameters)
    ensures FlagsFrom(NO_FLAGS, ps).Ok? <==> forall i | 0 <= i < |ps| :: Understood(ps[i])
    ensures FlagsFrom(NO_FLAGS, ps).Ok? ==> FlagsFrom(NO_FLAGS, ps).value == MeantFlags(ps)
    decreases |ps|
  {
    if ps != [] {
      var init, p := ps[..|ps| - 1], ps[|ps| - 1];
      hide MeantFlags;
      FlagsMeaning(init);
      FlagsAppend(NO_FLAGS, init, p);
      assert ps == init + [p];
      if Understood(p) {
        MeantAppend(init, p);
      }
    }
  }

  lemma FlagKeysDiffer()
    ensures KEY !in {REQ, SF, BS} && NAME !in {REQ, SF, BS}
  {
    assert KEY[0] != REQ[0] && |SF| == |BS| == 2 && |KEY| == |REQ| == 3 && |NAME| == 4;
  }

  lemma {:induction false} TextIsGiven(ps: Parameters, k: Text)
    requires k == KEY || k == NAME
    requires forall i | 0 <= i < |ps| :: Understood(ps[i])
    ensures StrOf(ps, k).Some? <==> HasKey(ps, k)
    decreases |ps|
  {
    if ps != [] {
      var init, p := ps[..|ps| - 1], ps[|ps| - 1];
      TextIsGiven(init, k);
      assert forall i | 0 <= i < |init| :: init[i] == ps[i];
      if p.key == k {
        FlagKeysDiffer();
        assert Understood(p) && ps[|init|].key == k;
      } else if HasKey(ps, k) {
        var i :| 0 <= i < |ps| && ps[i].key == k;
        assert init[i].key == k;
      }
    }
  }

  /** The first parameter that is not understood decides the error: of the wrong type, or unknown. */
  lemma {:induction false} FirstStranger(flags: Flags, ps: Parameters)
    requires FlagsFrom(flags, ps).Err?
    ensures exists i | 0 <= i < |ps| ::
              && !Understood(ps[i]) && (forall j | 0 <= j < i :: Understood(ps[j]))
              && FlagsFrom(flags, ps).error == if ps[i].key in {REQ, SF, BS, KEY, NAME} then Malformed else Unsupported
    decreases |ps|
  {
    var next := AddFlag(flags, ps[0]);
    if next.Ok? {
      FirstStranger(next.value, ps[1..]);
      var i :| 0 <= i < |ps[1..]| && !Understood(ps[1..][i]) && (forall j | 0 <= j < i :: Understood(ps[1..][j]))
        && FlagsFrom(next.value, ps[1..]).error == if ps[1..][i].key in {REQ, SF, BS, KEY, NAME} then Malformed else Unsupported;
      assert ps[1..][i] == ps[i + 1];
      assert Understood(ps[0]);
      assert forall j | 0 < j < i + 1 :: ps[j] == ps[1..][j - 1];
    } else {
      assert !Understood(ps[0]);
    }
  }

  /**
   * A component is accepted exactly if every parameter is understood and they go together: a derived component has
   * none of `sf`, `bs` and `key`, `name` is there for a query parameter and for nothing else, and `bs` excludes
   * `sf` and `key`.
   */
  lemma FlagsAreExact(c: Component)
    ensures var ps, derived := c.parameters, c.name != [] && c.name[0] == 64;
      var understood := forall i | 0 <= i < |ps| :: Understood(ps[i]);
      var coherent :=
        && !(derived && (HasKey(ps, SF) || HasKey(ps, BS) || HasKey(ps, KEY)))
        && (HasKey(ps, NAME) <==> c.name == QUERY_PARAM)
        && !(HasKey(ps, BS) && (HasKey(ps, SF) || HasKey(ps, KEY)));
      && (FlagsOf(c).Ok? <==> understood && coherent)
      && (understood && coherent ==> FlagsOf(c) == Ok(MeantFlags(ps)))
      && (understood && !coherent ==> FlagsOf(c) == Err(Malformed))
  {
    var ps := c.parameters;
    FlagsMeaning(ps);
    if forall i | 0 <= i < |ps| :: Understood(ps[i]) {
      TextIsGiven(ps, KEY);
      TextIsGiven(ps, NAME);
    }
    hide Understood, StrOf, HasKey, FlagsFrom;
  }

  // ---------------------------------------------------------------- component values

  function CombinedFrom(limits: CoreLimits, values: seq<seq<Byte>>, sofar: Text, first: bool): Core<Text>
    decreases |values|
  {
    if values == [] then Ok(sofar)
    else
      var next := sofar + (if first then [] else [44, 32]) + values[0];
      var _ :- Check(limits.maxMessageHeaderBytes, MaxHeaderBytes, |next|);
      CombinedFrom(limits, values[1..], next, false)
  }

  predicate IsAscii(t: Text) { forall i | 0 <= i < |t| :: t[i] <= 127 }

  function RequireAscii(t: Text): Core<Text> { if IsAscii(t) then Ok(t) else Err(Malformed) }

  /** Bounds the base64 expansion before anything is encoded. */
  function CheckBinary(limits: CoreLimits, values: seq<seq<Byte>>, size: nat, first: bool): Core<()>
    decreases |values|
  {
    if values == [] then Ok(())
    else
      var next := size + 2 + 4 * ((|values[0]| + 2) / 3) + if first then 0 else 2;
      var _ :- Check(limits.maxSignatureBaseBytes, MaxBaseBytes, next);
      CheckBinary(limits, values[1..], next, false)
  }

  function FieldValue(context: Context, headers: Headers, name: Text, flags: Flags): Core<Text> {
    var limits, lim := context.limits, context.limits.structuredFields;
    var values := if name in headers then headers[name] else [];
    if values == [] then Err(MissingComponent)
    else if flags.bs then
      var _ :- CheckBinary(limits, values, 0, true);
      var members := seq(|values|, i requires 0 <= i < |values| => ItemMember(Item(Bytes(values[i]), [])));
      WithSfErrors(Serialized(lim, ListField(members)))
    else
      var joined :- CombinedFrom(limits, values, [], true);
      var combined :- RequireAscii(joined);
      if !flags.sf && flags.key.None? then Ok(combined)
      else if name !in context.fieldTypes then Err(Unsupported)
      else if flags.key.Some? && context.fieldTypes[name] != DictionaryType then Err(Malformed)
      else
        var parsed :- WithSfErrors(SfParse.ParsedField(lim, combined, context.fieldTypes[name]));
        if flags.key.Some? && parsed.DictionaryField? then
          var i := SfParse.IndexOf(parsed.entries, flags.key.value);
          if i == |parsed.entries| then Err(MissingComponent)
          else WithSfErrors(MemberSerialized(lim, parsed.entries[i].value))
        else WithSfErrors(Serialized(lim, parsed))
  }

  function RequestOf(m: Message): Option<Headers> {
    match m
    case Request(headers) => Some(headers)
    case Response(_, _, request) => request
  }

  function RawValue(context: Context, c: Component, flags: Flags): Core<Text> {
    var message, request := context.message, RequestOf(context.message);
    if flags.req && message.Request? then Err(Malformed)
    else if flags.req && request.None? then Err(MissingComponent)
    else if Derived(c.name) then
      if c.name == STATUS then
        if message.Request? || flags.req || !(100 <= message.status <= 599) then Err(Malformed)
        else Ok(Decimal(message.status))
      else if (message.Response? && !flags.req) || request.None? then Err(MissingComponent)
      else context.derived(c.name, flags.name)
    else FieldValue(context, if flags.req then request.value else message.headers, c.name, flags)
  }

  predicate OneLine(t: Text) { forall i | 0 <= i < |t| :: t[i] != 10 && t[i] != 13 }

  function ComponentValue(context: Context, c: Component): Core<Text> {
    var flags :- FlagsOf(c);
    var raw :- RawValue(context, c, flags);
    var value :- RequireAscii(raw);
    if OneLine(value) then Ok(value) else Err(Malformed)
  }

  // ---------------------------------------------------------------- the base

  function Identifier(context: Context, c: Component): Core<Text> {
    WithSfErrors(MemberSerialized(context.limits.structuredFields, ItemMember(ItemOf(c))))
  }

  function Line(identifier: Text, value: Text): Text { identifier + [58, 32] + value + [10] }

  function LinesFrom(context: Context, cs: seq<Component>, seen: set<Text>, sofar: Text): Core<Text>
    decreases |cs|
  {
    if cs == [] then Ok(sofar)
    else
      var identifier :- Identifier(context, cs[0]);
      if identifier in seen then Err(Malformed)
      else
        var value :- ComponentValue(context, cs[0]);
        var next := sofar + Line(identifier, value);
        var _ :- Check(context.limits.maxSignatureBaseBytes, MaxBaseBytes, |next|);
        LinesFrom(context, cs[1..], seen + {identifier}, next)
  }

  function Base(context: Context, input: SignatureInput): Core<Text> {
    var parameters :- SignatureParameters(context.limits, input);
    var lines :- LinesFrom(context, input.components, {}, []);
    var _ :- Check(context.limits.maxSignatureBaseBytes, MaxBaseBytes, |lines| + |PREFIX| + |parameters|);
    RequireAscii(lines + PREFIX + parameters)
  }

  method CreateSignatureBase(context: Context, input: SignatureInput) returns (r: Core<Text>)
    ensures r == Base(context, input)
  {
    hide SignatureParameters, Identifier, RawValue, FlagsOf, IsAscii, OneLine, Line;
    var parameters :- SignatureParameters(context.limits, input);
    var text: Text, length: nat, seen: set<Text> := [], 0, {};
    for i := 0 to |input.components|
      invariant length == |text|
      invariant LinesFrom(context, input.components, {}, []) == LinesFrom(context, input.components[i..], seen, text)
    {
      var component := input.components[i];
      assert input.components[i..][1..] == input.components[i + 1..];
      var identifier :- Identifier(context, component);
      if identifier in seen { return Err(Malformed); }
      seen := seen + {identifier};
      var flags :- ComponentFlags(component);
      var raw :- RawValue(context, component, flags);
      var value :- RequireAscii(raw);
      if !OneLine(value) { return Err(Malformed); }
      LineLength(identifier, value);
      length := length + |identifier| + 2 + |value| + 1;
      var _ :- Check(context.limits.maxSignatureBaseBytes, MaxBaseBytes, length);
      text := text + Line(identifier, value);
    }
    var _ :- Check(context.limits.maxSignatureBaseBytes, MaxBaseBytes, length + |PREFIX| + |parameters|);
    r := RequireAscii(text + PREFIX + parameters);
  }

  lemma LineLength(identifier: Text, value: Text)
    ensures |Line(identifier, value)| == |identifier| + 2 + |value| + 1
  {
  }

  // ---------------------------------------------------------------- unique decodability

  /** The lines of components with given values. */
  function Lines(cs: seq<Component>, values: seq<Text>): Text
    requires |values| == |cs| && forall i | 0 <= i < |cs| :: ValidItem(ItemOf(cs[i]))
  {
    if cs == [] then [] else Line(ItemText(ItemOf(cs[0])), values[0]) + Lines(cs[1..], values[1..])
  }

  /** The values the covered components have in a message. */
  function Values(context: Context, cs: seq<Component>): seq<Text>
    requires forall i | 0 <= i < |cs| :: ComponentValue(context, cs[i]).Ok?
  {
    seq(|cs|, i requires 0 <= i < |cs| => ComponentValue(context, cs[i]).value)
  }

  lemma MemberSerializes(lim: Limits, m: Member)
    requires MemberSerialized(lim, m).Ok?
    ensures ValidMember(m) && MemberSerialized(lim, m).value == MemberText(m)
  {
    hide ValidMember, MemberText, WriteMember;
    SfSerialized.WriteMemberMeaning(lim, EMPTY, m);
    assert EMPTY.text + MemberText(m) == MemberText(m);
  }

  lemma IdentifierIsText(context: Context, c: Component)
    requires Identifier(context, c).Ok?
    ensures ValidItem(ItemOf(c)) && Identifier(context, c).value == ItemText(ItemOf(c))
  {
    hide MemberSerialized, ValidItem, ItemText;
    MemberSerializes(context.limits.structuredFields, ItemMember(ItemOf(c)));
  }

  lemma {:induction false} LinesMeaning(context: Context, cs: seq<Component>, seen: set<Text>, sofar: Text)
    requires LinesFrom(context, cs, seen, sofar).Ok?
    ensures forall i | 0 <= i < |cs| :: ValidItem(ItemOf(cs[i])) && ComponentValue(context, cs[i]).Ok?
    ensures forall i | 0 <= i < |cs| :: OneLine(ComponentValue(context, cs[i]).value)
    ensures LinesFrom(context, cs, seen, sofar).value == sofar + Lines(cs, Values(context, cs))
    decreases |cs|
  {
    hide Identifier, ValidItem, ItemText, Line, RawValue, FlagsOf;
    if cs == [] {
      assert sofar + [] == sofar;
    } else {
      IdentifierIsText(context, cs[0]);
      var identifier := Identifier(context, cs[0]).value;
      var value := ComponentValue(context, cs[0]).value;
      var line := Line(identifier, value);
      LinesMeaning(context, cs[1..], seen + {identifier}, sofar + line);
      assert Values(context, cs)[1..] == Values(context, cs[1..]);
      assert (sofar + line) + Lines(cs[1..], Values(context, cs[1..])) == sofar + (line + Lines(cs[1..], Values(context, cs[1..])));
    }
  }

  lemma BaseMeaning(context: Context, input: SignatureInput)
    requires Base(context, input).Ok?
    ensures ValidMember(SignedList(input))
    ensures forall i | 0 <= i < |input.components| ::
              && ValidItem(ItemOf(input.components[i])) && ComponentValue(context, input.components[i]).Ok?
              && OneLine(ComponentValue(context, input.components[i]).value)
    ensures Base(context, input).value
         == Lines(input.components, Values(context, input.components)) + (PREFIX + MemberText(SignedList(input)))
  {
    hide ValidMember, MemberText, ValidItem, Lines, ComponentValue, OneLine, LinesFrom, MemberSerialized, CheckInput;
    MemberSerializes(context.limits.structuredFields, SignedList(input));
    LinesMeaning(context, input.components, {}, []);
    var lines := Lines(input.components, Values(context, input.components));
    assert [] + lines == lines;
    assert lines + PREFIX + MemberText(SignedList(input)) == lines + (PREFIX + MemberText(SignedList(input)));
  }

  predicate EndsLine(t: Text) { t == [] || t[|t| - 1] == 10 }

  lemma BreakInTail(a: Text, t: Text, b: Text, u: Text)
    requires a + t == b + u && EndsLine(b) && |a| < |b|
    ensures !OneLine(t)
  {
    assert (a + t)[|b| - 1] == b[|b| - 1];
    assert t[|b| - 1 - |a|] == 10;
  }

  /** Text is divided after its last line break in only one way. */
  lemma LastLine(a: Text, t: Text, b: Text, u: Text)
    requires a + t == b + u && EndsLine(a) && EndsLine(b) && OneLine(t) && OneLine(u)
    ensures a == b && t == u
  {
    hide OneLine;
    if |a| < |b| {
      BreakInTail(a, t, b, u);
    } else if |b| < |a| {
      BreakInTail(b, u, a, t);
    }
    var all := a + t;
    assert a == all[..|a|] && b == all[..|b|] && t == all[|a|..] && u == all[|b|..];
  }

  lemma BreakInHead(v: Text, rest: Text, w: Text, rest': Text)
    requires v + [10] + rest == w + [10] + rest' && |v| < |w|
    ensures !OneLine(w)
  {
    assert (v + [10] + rest)[|v|] == w[|v|];
    assert w[|v|] == 10;
  }

  /** Text is divided at its first line break in only one way. */
  lemma FirstLine(v: Text, rest: Text, w: Text, rest': Text)
    requires v + [10] + rest == w + [10] + rest' && OneLine(v) && OneLine(w)
    ensures v == w && rest == rest'
  {
    hide OneLine;
    if |v| < |w| {
      BreakInHead(v, rest, w, rest');
    } else if |w| < |v| {
      BreakInHead(w, rest', v, rest);
    }
    var all := v + [10] + rest;
    assert v == all[..|v|] && w == all[..|w|] && rest == all[|v| + 1..] && rest' == all[|w| + 1..];
  }

  lemma {:induction false} LinesEndLines(cs: seq<Component>, values: seq<Text>)
    requires |values| == |cs| && forall i | 0 <= i < |cs| :: ValidItem(ItemOf(cs[i]))
    ensures EndsLine(Lines(cs, values))
    decreases |cs|
  {
    hide ValidItem, ItemText;
    if cs != [] {
      LinesEndLines(cs[1..], values[1..]);
    }
  }

  lemma {:induction false} LinesDetermineValues(cs: seq<Component>, values: seq<Text>, others: seq<Text>)
    requires |values| == |others| == |cs| && forall i | 0 <= i < |cs| :: ValidItem(ItemOf(cs[i]))
    requires forall i | 0 <= i < |cs| :: OneLine(values[i]) && OneLine(others[i])
    requires Lines(cs, values) == Lines(cs, others)
    ensures values == others
    decreases |cs|
  {
    hide ValidItem, ItemText, OneLine;
    if cs != [] {
      var head := ItemText(ItemOf(cs[0])) + [58, 32];
      var v, w := values[0], others[0];
      var rest, rest' := Lines(cs[1..], values[1..]), Lines(cs[1..], others[1..]);
      assert Lines(cs, values) == head + (v + [10] + rest);
      assert Lines(cs, others) == head + (w + [10] + rest');
      SamePrefix(head, v + [10] + rest, w + [10] + rest');
      FirstLine(v, rest, w, rest');
      LinesDetermineValues(cs[1..], values[1..], others[1..]);
      assert values == [v] + values[1..] && others == [w] + others[1..];
    }
  }

  lemma SamePrefix(a: Text, b: Text, c: Text)
    requires a + b == a + c
    ensures b == c
  {
    assert b == (a + b)[|a|..] && c == (a + c)[|a|..];
  }

  lemma LastLineIsOneLine(m: Member)
    requires ValidMember(m)
    ensures OneLine(PREFIX + MemberText(m))
  {
    hide ValidMember, MemberText;
    SfRoundTrip.PrintableMember(m);
  }

  /**
   * Two bases with the same text, of whatever messages under whatever limits, cover the same components
   * with the same values and the same signature parameters; the label plays no part.
   */
  lemma UniquelyDecodable(context: Context, input: SignatureInput, other: Context, input': SignatureInput)
    requires Base(context, input).Ok? && Base(other, input') == Base(context, input)
    ensures input'.components == input.components && input'.parameters == input.parameters
    ensures forall i | 0 <= i < |input.components| ::
              ComponentValue(other, input.components[i]) == ComponentValue(context, input.components[i])
  {
    hide Base, ValidMember, MemberText, ValidItem, Lines, ComponentValue, OneLine;
    var cs, cs' := input.components, input'.components;
    BaseMeaning(context, input);
    BaseMeaning(other, input');
    var a, b := Lines(cs, Values(context, cs)), Lines(cs', Values(other, cs'));
    var m, m' := SignedList(input), SignedList(input');
    LinesEndLines(cs, Values(context, cs));
    LinesEndLines(cs', Values(other, cs'));
    LastLineIsOneLine(m);
    LastLineIsOneLine(m');
    LastLine(a, PREFIX + MemberText(m), b, PREFIX + MemberText(m'));
    SamePrefix(PREFIX, MemberText(m), MemberText(m'));
    SfRoundTrip.MemberTextIsInjective(m, m');
    SameComponents(cs, cs');
    LinesDetermineValues(cs, Values(context, cs), Values(other, cs));
    forall i | 0 <= i < |cs| ensures ComponentValue(other, cs[i]) == ComponentValue(context, cs[i]) {
      assert Values(context, cs)[i] == Values(other, cs)[i];
    }
  }

  lemma SameComponents(cs: seq<Component>, cs': seq<Component>)
    requires ItemsOf(cs) == ItemsOf(cs')
    ensures cs == cs'
  {
    assert |cs| == |ItemsOf(cs)| == |cs'|;
    forall i | 0 <= i < |cs| ensures cs[i] == cs'[i] {
      assert ItemsOf(cs)[i] == ItemsOf(cs')[i];
    }
  }

  /** The label is validated but never written. */
  lemma LabelPlaysNoPart(context: Context, input: SignatureInput, relabelled: Text)
    requires Base(context, input).Ok? && Base(context, input.(signatureLabel := relabelled)).Ok?
    ensures Base(context, input.(signatureLabel := relabelled)) == Base(context, input)
  {
    hide LinesFrom, MemberSerialized;
    var other := input.(signatureLabel := relabelled);
    assert SignedList(other) == SignedList(input);
  }

  lemma {:induction false} FreshIdentifiers(context: Context, cs: seq<Component>, seen: set<Text>, sofar: Text)
    requires LinesFrom(context, cs, seen, sofar).Ok?
    ensures forall i | 0 <= i < |cs| :: Identifier(context, cs[i]).Ok? && Identifier(context, cs[i]).value !in seen
    ensures forall i, j | 0 <= i < j < |cs| :: cs[i] != cs[j]
    decreases |cs|
  {
    hide Identifier, ComponentValue, Line;
    if cs != [] {
      var identifier := Identifier(context, cs[0]).value;
      var next := sofar + Line(identifier, ComponentValue(context, cs[0]).value);
      FreshIdentifiers(context, cs[1..], seen + {identifier}, next);
      forall i | 0 < i < |cs| ensures Identifier(context, cs[i]).Ok? && Identifier(context, cs[i]).value !in seen && cs[i] != cs[0] {
        assert cs[i] == cs[1..][i - 1];
      }
      forall i, j | 0 <= i < j < |cs| ensures cs[i] != cs[j] {
        if i > 0 {
          assert cs[i] == cs[1..][i - 1] && cs[j] == cs[1..][j - 1];
        }
      }
    }
  }

  /** No component is covered twice. */
  lemma CoversOnce(context: Context, input: SignatureInput)
    requires Base(context, input).Ok?
    ensures forall i, j | 0 <= i < j < |input.components| :: input.components[i] != input.components[j]
  {
    FreshIdentifiers(context, input.components, {}, []);
  }
}
