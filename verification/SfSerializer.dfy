/**
 * The serializer: a writer that charges limits before it appends anything, and its description as functions
 * on the text and the count of occurrences so far. Every method of the writer ends in the output or the error
 * of its function.
 */
module SfSerializer {
  import opened Basics
  import opened SfModel
  import Base64
  import Utf8

  /** The text written and the occurrences counted so far. */
  datatype Out = Out(text: Text, occurrences: nat)

  const EMPTY := Out([], 0)

  function Reserve(lim: Limits, length: nat, more: nat): Outcome<()> { CheckLimit(lim, MaxOutputBytes, length + more) }

  function Appended(lim: Limits, out: Out, t: Text): Outcome<Out> {
    var _ :- Reserve(lim, |out.text|, |t|);
    Ok(out.(text := out.text + t))
  }

  function Counted(lim: Limits, out: Out): Outcome<Out> {
    var occurrences :- Occurrence(lim, out.occurrences);
    Ok(out.(occurrences := occurrences))
  }

  function WriteKey(lim: Limits, out: Out, key: Text, seen: set<Text>): Outcome<Out> {
    var _ :- CheckLimit(lim, MaxKeyLength, |key|);
    if !ValidKey(key) then Err(Serialization(BadKey))
    else if key in seen then Err(Serialization(DuplicateKey))
    else
      Appended(lim, out, key)
  }

  /** Checks the characters from `i` on, having accounted for `encoded` characters of output. */
  function MeasureString(lim: Limits, length: nat, t: Text, i: nat, encoded: nat): Outcome<()>
    requires i <= |t|
    decreases |t| - i
  {
    if i == |t| then Ok(())
    else if !Printable(t[i]) then Err(Serialization(BadString))
    else
      var next := encoded + if t[i] == 34 || t[i] == 92 then 2 else 1;
      var _ :- Reserve(lim, length, next);
      MeasureString(lim, length, t, i + 1, next)
  }

  function WriteString(lim: Limits, out: Out, t: Text): Outcome<Out> {
    var _ :- CheckLimit(lim, MaxDecodedBytes, |t|);
    var _ :- Reserve(lim, |out.text|, 2 + |t|);
    var _ :- MeasureString(lim, |out.text|, t, 0, 2);
    Appended(lim, out, [34] + Escape(t) + [34])
  }

  function ByteCount(c: Code): nat { if c < 0x80 then 1 else if c < 0x800 then 2 else 3 }

  /** The UTF-8 and the escaped size of the scalar at `i`. */
  function MeasureDisplay(lim: Limits, length: nat, t: Text, i: nat, decoded: nat, encoded: nat): Outcome<()>
    requires i <= |t|
    decreases |t| - i
  {
    if i == |t| then Ok(())
    else if Utf8.High(t[i]) && !(i + 1 < |t| && Utf8.Low(t[i + 1])) then Err(Serialization(BadUnicode))
    else if Utf8.Low(t[i]) then Err(Serialization(BadUnicode))
    else
      var pair := Utf8.High(t[i]);
      var size := if pair then 4 else ByteCount(t[i]);
      var decoded' := decoded + size;
      var encoded' := encoded + if Plain(t[i]) then 1 else 3 * size;
      var _ :- CheckLimit(lim, MaxDecodedBytes, decoded');
      var _ :- Reserve(lim, length, encoded');
      MeasureDisplay(lim, length, t, if pair then i + 2 else i + 1, decoded', encoded')
  }

  function WriteDisplay(lim: Limits, out: Out, t: Text): Outcome<Out> {
    var _ :- CheckLimit(lim, MaxDecodedBytes, |t|);
    var _ :- Reserve(lim, |out.text|, 3 + |t|);
    var _ :- MeasureDisplay(lim, |out.text|, t, 0, 0, 3);
    if Utf8.WellFormed(t) then Appended(lim, out, [37, 34] + EscapeBytes(Utf8.Encode(t)) + [34])
    else Err(Serialization(BadUnicode))
  }

  function WriteBare(lim: Limits, out: Out, b: BareItem): Outcome<Out> {
    match b
    case Integer(v) => if InRange(v) then Appended(lim, out, IntegerText(v)) else Err(Serialization(BadNumber))
    case Date(v) => if InRange(v) then Appended(lim, out, [64] + IntegerText(v)) else Err(Serialization(BadNumber))
    case Decimals(v) => if InRange(v) then Appended(lim, out, DecimalText(v)) else Err(Serialization(BadNumber))
    case Boolean(flag) => Appended(lim, out, [63, if flag then 49 else 48])
    case Token(t) =>
      var _ :- CheckLimit(lim, MaxTokenLength, |t|);
      if ValidToken(t) then Appended(lim, out, t) else Err(Serialization(BadToken))
    case Str(t) => WriteString(lim, out, t)
    case DisplayString(t) => WriteDisplay(lim, out, t)
    case Bytes(t) =>
      var _ :- CheckLimit(lim, MaxDecodedBytes, |t|);
      Appended(lim, out, [58] + Base64.Encode(t) + [58])
  }

  /** The parameters still to be written, given the keys written before them. */
  function WriteRest(lim: Limits, out: Out, ps: Parameters, seen: set<Text>): Outcome<Out>
    decreases |ps|
  {
    if ps == [] then Ok(out)
    else
      var counted :- Counted(lim, out);
      var started :- Appended(lim, counted, [59]);
      var keyed :- WriteKey(lim, started, ps[0].key, seen);
      var written :- WriteParameterValue(lim, keyed, ps[0].value);
      WriteRest(lim, written, ps[1..], seen + {ps[0].key})
  }

  function WriteParameterValue(lim: Limits, out: Out, b: BareItem): Outcome<Out> {
    if b == TRUE then Ok(out)
    else
      var equals :- Appended(lim, out, [61]);
      WriteBare(lim, equals, b)
  }

  function WriteParameters(lim: Limits, out: Out, ps: Parameters): Outcome<Out> {
    var _ :- CheckLimit(lim, MaxParameters, |ps|);
    WriteRest(lim, out, ps, {})
  }

  /** A separator between elements, none before the first. */
  function Separated(lim: Limits, out: Out, first: bool, separator: Text): Outcome<Out> {
    if first then Ok(out) else Appended(lim, out, separator)
  }

  function WriteItems(lim: Limits, out: Out, items: seq<Item>, first: bool): Outcome<Out>
    decreases 1, |items|
  {
    if items == [] then Ok(out)
    else
      var separated :- Separated(lim, out, first, [32]);
      var written :- WriteMember(lim, separated, ItemMember(items[0]));
      WriteItems(lim, written, items[1..], false)
  }

  function WriteMember(lim: Limits, out: Out, m: Member): Outcome<Out>
    decreases if m.InnerList? then 2 else 0, 1
  {
    var counted :- Counted(lim, out);
    match m
    case ItemMember(i) =>
      var written :- WriteBare(lim, counted, i.bare);
      WriteParameters(lim, written, i.params)
    case InnerList(items, ps) =>
      var closed :- WriteParenthesized(lim, counted, items);
      WriteParameters(lim, closed, ps)
  }

  function WriteParenthesized(lim: Limits, out: Out, items: seq<Item>): Outcome<Out>
    decreases 2, 0
  {
    var _ :- CheckLimit(lim, MaxInnerListItems, |items|);
    var begun :- Appended(lim, out, [40]);
    var written :- WriteItems(lim, begun, items, true);
    Appended(lim, written, [41])
  }

  function WriteMembers(lim: Limits, out: Out, ms: seq<Member>, first: bool): Outcome<Out>
    decreases |ms|
  {
    if ms == [] then Ok(out)
    else
      var separated :- Separated(lim, out, first, [44, 32]);
      var written :- WriteMember(lim, separated, ms[0]);
      WriteMembers(lim, written, ms[1..], false)
  }

  function WriteEntryValue(lim: Limits, out: Out, m: Member): Outcome<Out> {
    if Implicit(m) then
      var counted :- Counted(lim, out);
      WriteParameters(lim, counted, m.item.params)
    else
      var equals :- Appended(lim, out, [61]);
      WriteMember(lim, equals, m)
  }

  function WriteEntries(lim: Limits, out: Out, es: seq<Pair<Member>>, seen: set<Text>, first: bool): Outcome<Out>
    decreases |es|
  {
    if es == [] then Ok(out)
    else
      var separated :- Separated(lim, out, first, [44, 32]);
      var keyed :- WriteKey(lim, separated, es[0].key, seen);
      var written :- WriteEntryValue(lim, keyed, es[0].value);
      WriteEntries(lim, written, es[1..], seen + {es[0].key}, false)
  }

  function WriteField(lim: Limits, out: Out, f: Field): Outcome<Out> {
    match f
    case ItemField(i) => WriteMember(lim, out, ItemMember(i))
    case ListField(ms) =>
      var _ :- CheckLimit(lim, MaxMembers, |ms|);
      WriteMembers(lim, out, ms, true)
    case DictionaryField(es) =>
      var _ :- CheckLimit(lim, MaxMembers, |es|);
      WriteEntries(lim, out, es, {}, true)
  }

  // ---------------------------------------------------------------- the writer

  function Joined(chunks: seq<Text>): Text {
    if chunks == [] then [] else Joined(chunks[..|chunks| - 1]) + chunks[|chunks| - 1]
  }

  class Writer {
    const lim: Limits
    var chunks: seq<Text>
    var length: nat
    var occurrences: nat

    ghost predicate Accounted()
      reads this
    {
      length == |Joined(chunks)|
    }

    ghost function Value(): Out
      reads this
    {
      Out(Joined(chunks), occurrences)
    }

    /** The call ended as the specification says: in its error, or in its output. */
    ghost predicate Meets(r: Outcome<()>, expected: Outcome<Out>)
      reads this
    {
      match expected
      case Ok(out) => r == Ok(()) && Value() == out
      case Err(e) => r == Err(e)
    }

    constructor (lim: Limits)
      ensures Accounted() && Value() == EMPTY && this.lim == lim
    {
      this.lim := lim;
      chunks := [];
      length := 0;
      occurrences := 0;
    }

    method Append(t: Text) returns (r: Outcome<()>)
      requires Accounted()
      modifies this
      ensures Accounted() && Meets(r, Appended(lim, old(Value()), t))
    {
      var _ :- Reserve(lim, length, |t|);
      length := length + |t|;
      chunks := chunks + [t];
      assert chunks[..|chunks| - 1] == old(chunks);
      r := Ok(());
    }

    method Count() returns (r: Outcome<()>)
      requires Accounted()
      modifies this`occurrences
      ensures Accounted() && Meets(r, Counted(lim, old(Value())))
    {
      occurrences :- Occurrence(lim, occurrences);
      r := Ok(());
    }

    method Finish() returns (t: Text)
      requires Accounted()
      ensures t == Value().text
    {
      t := [];
      for i := 0 to |chunks|
        invariant t == Joined(chunks[..i])
      {
        t := t + chunks[i];
        assert chunks[..i + 1][..i] == chunks[..i];
      }
      assert chunks[..|chunks|] == chunks;
    }

    method Key(key: Text, seen: set<Text>) returns (r: Outcome<()>)
      requires Accounted()
      modifies this
      ensures Accounted() && Meets(r, WriteKey(lim, old(Value()), key, seen))
    {
      var _ :- CheckLimit(lim, MaxKeyLength, |key|);
      if !ValidKey(key) { return Err(Serialization(BadKey)); }
      if key in seen { return Err(Serialization(DuplicateKey)); }
      r := Append(key);
    }

    method String(t: Text) returns (r: Outcome<()>)
      requires Accounted()
      modifies this
      ensures Accounted() && Meets(r, WriteString(lim, old(Value()), t))
    {
      var _ :- CheckLimit(lim, MaxDecodedBytes, |t|);
      var encoded := 2;
      var _ :- Reserve(lim, length, encoded + |t|);
      for i := 0 to |t|
        invariant Accounted() && Value() == old(Value())
        invariant MeasureString(lim, length, t, 0, 2) == MeasureString(lim, length, t, i, encoded)
      {
        if !Printable(t[i]) { return Err(Serialization(BadString)); }
        encoded := encoded + if t[i] == 34 || t[i] == 92 then 2 else 1;
        var _ :- Reserve(lim, length, encoded);
      }
      r := Append([34] + Escape(t) + [34]);
    }

    method Display(t: Text) returns (r: Outcome<()>)
      requires Accounted()
      modifies this
      ensures Accounted() && Meets(r, WriteDisplay(lim, old(Value()), t))
    {
      var _ :- CheckLimit(lim, MaxDecodedBytes, |t|);
      var _ :- Reserve(lim, length, 3 + |t|);
      var decoded: nat, encoded: nat, i: nat := 0, 3, 0;
      while i < |t|
        invariant i <= |t| && Accounted() && Value() == old(Value())
        invariant MeasureDisplay(lim, length, t, 0, 0, 3) == MeasureDisplay(lim, length, t, i, decoded, encoded)
      {
        var code := t[i];
        var size: nat;
        if Utf8.High(code) {
          if !(i + 1 < |t| && Utf8.Low(t[i + 1])) { return Err(Serialization(BadUnicode)); }
          i := i + 1;
          size := 4;
        } else if Utf8.Low(code) {
          return Err(Serialization(BadUnicode));
        } else {
          size := ByteCount(code);
        }
        decoded := decoded + size;
        encoded := encoded + if Plain(code) then 1 else 3 * size;
        var _ :- CheckLimit(lim, MaxDecodedBytes, decoded);
        var _ :- Reserve(lim, length, encoded);
        i := i + 1;
      }
      MeasuredIsWellFormed(lim, length, t, 0, 0, 3);
      assert t[0..] == t;
      var output := Escaped(Utf8.Encode(t));
      r := Append(output);
    }

    method Escaped(bytes: seq<Byte>) returns (output: Text)
      ensures output == [37, 34] + EscapeBytes(bytes) + [34]
    {
      output := [37, 34];
      for k := 0 to |bytes|
        invariant output + EscapeBytes(bytes[k..]) == [37, 34] + EscapeBytes(bytes)
      {
        output := output + EscapeByte(bytes[k]);
        assert bytes[k..][1..] == bytes[k + 1..];
      }
      output := output + [34];
    }

    method Bare(b: BareItem) returns (r: Outcome<()>)
      requires Accounted()
      modifies this
      ensures Accounted() && Meets(r, WriteBare(lim, old(Value()), b))
    {
      match b {
        case Integer(v) =>
          if !InRange(v) { return Err(Serialization(BadNumber)); }
          r := Append(IntegerText(v));
        case Date(v) =>
          if !InRange(v) { return Err(Serialization(BadNumber)); }
          r := Append([64] + IntegerText(v));
        case Decimals(v) =>
          if !InRange(v) { return Err(Serialization(BadNumber)); }
          r := Append(DecimalText(v));
        case Boolean(flag) =>
          r := Append([63, if flag then 49 else 48]);
        case Token(t) =>
          var _ :- CheckLimit(lim, MaxTokenLength, |t|);
          if !ValidToken(t) { return Err(Serialization(BadToken)); }
          r := Append(t);
        case Str(t) =>
          r := String(t);
        case DisplayString(t) =>
          r := Display(t);
        case Bytes(t) =>
          var _ :- CheckLimit(lim, MaxDecodedBytes, |t|);
          var _ :- Reserve(lim, length, 2 + 4 * ((|t| + 2) / 3));
          r := Append([58] + Base64.Encode(t) + [58]);
      }
    }

    method Params(ps: Parameters) returns (r: Outcome<()>)
      requires Accounted()
      modifies this
      ensures Accounted() && Meets(r, WriteParameters(lim, old(Value()), ps))
    {
      var _ :- CheckLimit(lim, MaxParameters, |ps|);
      var keys: set<Text> := {};
      for i := 0 to |ps|
        invariant Accounted()
        invariant WriteRest(lim, old(Value()), ps, {}) == WriteRest(lim, Value(), ps[i..], keys)
      {
        assert ps[i..][1..] == ps[i + 1..];
        var _ :- Count();
        var _ :- Append([59]);
        var _ :- Key(ps[i].key, keys);
        keys := keys + {ps[i].key};
        if ps[i].value != TRUE {
          var _ :- Append([61]);
          var _ :- Bare(ps[i].value);
        }
      }
      r := Ok(());
    }

    method Member(m: SfModel.Member) returns (r: Outcome<()>)
      requires Accounted()
      modifies this
      ensures Accounted() && Meets(r, WriteMember(lim, old(Value()), m))
      decreases if m.InnerList? then 1 else 0, 1
    {
      var _ :- Count();
      match m {
        case ItemMember(i) =>
          var _ :- Bare(i.bare);
          r := Params(i.params);
        case InnerList(items, ps) =>
          var _ :- Parenthesized(items);
          r := Params(ps);
      }
    }

    method Parenthesized(items: seq<Item>) returns (r: Outcome<()>)
      requires Accounted()
      modifies this
      ensures Accounted() && Meets(r, WriteParenthesized(lim, old(Value()), items))
      decreases 1, 0
    {
      var _ :- CheckLimit(lim, MaxInnerListItems, |items|);
      var _ :- Append([40]);
      ghost var begun := Value();
      for k := 0 to |items|
        invariant Accounted()
        invariant WriteItems(lim, begun, items, true) == WriteItems(lim, Value(), items[k..], k == 0)
      {
        assert items[k..][1..] == items[k + 1..];
        if k != 0 {
          var _ :- Append([32]);
        }
        var _ :- Member(ItemMember(items[k]));
      }
      r := Append([41]);
    }

    method Field(f: SfModel.Field) returns (r: Outcome<()>)
      requires Accounted()
      modifies this
      ensures Accounted() && Meets(r, WriteField(lim, old(Value()), f))
    {
      match f {
        case ItemField(i) =>
          r := Member(ItemMember(i));
        case ListField(ms) =>
          var _ :- CheckLimit(lim, MaxMembers, |ms|);
          for k := 0 to |ms|
            invariant Accounted()
            invariant WriteMembers(lim, old(Value()), ms, true) == WriteMembers(lim, Value(), ms[k..], k == 0)
          {
            assert ms[k..][1..] == ms[k + 1..];
            if k != 0 {
              var _ :- Append([44, 32]);
            }
            var _ :- Member(ms[k]);
          }
          r := Ok(());
        case DictionaryField(es) =>
          r := Dictionary(es);
      }
    }

    method Dictionary(es: seq<Pair<SfModel.Member>>) returns (r: Outcome<()>)
      requires Accounted()
      modifies this
      ensures Accounted() && Meets(r, WriteField(lim, old(Value()), DictionaryField(es)))
    {
      var _ :- CheckLimit(lim, MaxMembers, |es|);
      var keys: set<Text> := {};
      for k := 0 to |es|
        invariant Accounted()
        invariant WriteEntries(lim, old(Value()), es, {}, true) == WriteEntries(lim, Value(), es[k..], keys, k == 0)
      {
        assert es[k..][1..] == es[k + 1..];
        if k != 0 {
          var _ :- Append([44, 32]);
        }
        var _ :- Key(es[k].key, keys);
        keys := keys + {es[k].key};
        if Implicit(es[k].value) {
          var _ :- Count();
          var _ :- Params(es[k].value.item.params);
        } else {
          var _ :- Append([61]);
          var _ :- Member(es[k].value);
        }
      }
      r := Ok(());
    }
  }

  function Serialized(lim: Limits, f: SfModel.Field): Outcome<Text> {
    var out :- WriteField(lim, EMPTY, f);
    Ok(out.text)
  }

  method Serialize(lim: Limits, f: SfModel.Field) returns (r: Outcome<Text>)
    ensures r == Serialized(lim, f)
  {
    var writer := new Writer(lim);
    var _ :- writer.Field(f);
    var text := writer.Finish();
    r := Ok(text);
  }

  method SerializeMember(lim: Limits, m: SfModel.Member) returns (r: Outcome<Text>)
    ensures match WriteMember(lim, EMPTY, m)
            case Ok(out) => r == Ok(out.text)
            case Err(e) => r == Err(e)
  {
    var writer := new Writer(lim);
    var _ :- writer.Member(m);
    var text := writer.Finish();
    r := Ok(text);
  }

  // ---------------------------------------------------------------- when it succeeds

  lemma {:induction false} MeasuredIsWellFormed(lim: Limits, length: nat, t: Text, i: nat, decoded: nat, encoded: nat)
    requires i <= |t|
    requires MeasureDisplay(lim, length, t, i, decoded, encoded).Ok?
    ensures Utf8.WellFormed(t[i..])
    decreases |t| - i
  {
    if i < |t| {
      var pair := Utf8.High(t[i]);
      var size := if pair then 4 else ByteCount(t[i]);
      MeasuredIsWellFormed(lim, length, t, if pair then i + 2 else i + 1, decoded + size,
                           encoded + if Plain(t[i]) then 1 else 3 * size);
      if pair {
        assert t[i..][2..] == t[i + 2..];
      } else {
        assert t[i..][1..] == t[i + 1..];
      }
    }
  }
}
