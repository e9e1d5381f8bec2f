/** From the raw tree to the semantic value: the last value of a repeated key wins, at its first position. */
module SfParse {
  import opened Basics
  import opened SfModel
  import opened SfParser

  // ---------------------------------------------------------------- insertion-ordered maps

  function IndexOf<V>(m: seq<Pair<V>>, k: Text): (i: nat)
    ensures i <= |m|
    ensures i < |m| ==> m[i].key == k
    ensures forall j | 0 <= j < i :: m[j].key != k
  {
    if m == [] || m[0].key == k then 0 else 1 + IndexOf(m[1..], k)
  }

  /** Replacing a value does not move its position. */
  function Set<V>(m: seq<Pair<V>>, p: Pair<V>): (r: seq<Pair<V>>)
    ensures forall k :: HasKey(r, k) <==> k == p.key || HasKey(m, k)
    ensures DistinctKeys(m) ==> DistinctKeys(r)
  {
    var i := IndexOf(m, p.key);
    if i < |m| then
      var r := m[i := p];
      assert forall j | 0 <= j < |m| :: r[j].key == m[j].key;
      r
    else
      var r := m + [p];
      assert forall j | 0 <= j < |m| :: r[j] == m[j];
      assert r[|m|] == p;
      r
  }

  function SetAll<V>(m: seq<Pair<V>>, pairs: seq<Pair<V>>): seq<Pair<V>>
    decreases |pairs|
  {
    if pairs == [] then m else SetAll(Set(m, pairs[0]), pairs[1..])
  }

  function LastWins<V>(pairs: seq<Pair<V>>): seq<Pair<V>> { SetAll([], pairs) }

  /** The last value given for a key. */
  function LastValue<V>(pairs: seq<Pair<V>>, k: Text): Option<V> {
    if pairs == [] then None
    else if pairs[|pairs| - 1].key == k then Some(pairs[|pairs| - 1].value)
    else LastValue(pairs[..|pairs| - 1], k)
  }

  /** The keys in the order of their first occurrence. */
  function FirstKeys<V>(pairs: seq<Pair<V>>): seq<Text> {
    if pairs == [] then []
    else
      var before := FirstKeys(pairs[..|pairs| - 1]);
      var k := pairs[|pairs| - 1].key;
      if k in before then before else before + [k]
  }

  function Keys<V>(m: seq<Pair<V>>): seq<Text> { seq(|m|, i requires 0 <= i < |m| => m[i].key) }

  lemma {:induction false} SetAllAppend<V>(m: seq<Pair<V>>, pairs: seq<Pair<V>>, p: Pair<V>)
    ensures SetAll(m, pairs + [p]) == Set(SetAll(m, pairs), p)
    decreases |pairs|
  {
    if pairs == [] {
      assert (pairs + [p])[1..] == [];
    } else {
      SetAllAppend(Set(m, pairs[0]), pairs[1..], p);
      assert (pairs + [p])[1..] == pairs[1..] + [p];
    }
  }

  /** Distinct keys, in the order of their first occurrence, each with the last value given for it. */
  lemma {:induction false} LastWinsMeaning<V>(pairs: seq<Pair<V>>)
    ensures var m := LastWins(pairs);
      && DistinctKeys(m) && Keys(m) == FirstKeys(pairs)
      && forall i | 0 <= i < |m| :: LastValue(pairs, m[i].key) == Some(m[i].value)
    decreases |pairs|
  {
    if pairs != [] {
      var before, p := pairs[..|pairs| - 1], pairs[|pairs| - 1];
      var m := LastWins(before);
      LastWinsMeaning(before);
      SetAllAppend([], before, p);
      assert pairs == before + [p];
      var r := Set(m, p);
      var i := IndexOf(m, p.key);
      assert (p.key in Keys(m)) == (i < |m|) by {
        if i < |m| {
          assert Keys(m)[i] == p.key;
        }
      }
      assert Keys(r) == FirstKeys(pairs);
      forall j | 0 <= j < |r| ensures LastValue(pairs, r[j].key) == Some(r[j].value) {
        if j != i {
          assert r[j] == m[j];
        }
      }
    }
  }

  lemma {:induction false} SetAllDistinct<V>(m: seq<Pair<V>>, pairs: seq<Pair<V>>)
    requires DistinctKeys(m + pairs)
    ensures SetAll(m, pairs) == m + pairs
    decreases |pairs|
  {
    if pairs == [] {
      assert m + pairs == m;
    } else {
      var all := m + pairs;
      assert all[|m|] == pairs[0];
      forall j | 0 <= j < |m| ensures m[j].key != pairs[0].key {
        assert all[j] == m[j];
      }
      assert all == (m + [pairs[0]]) + pairs[1..];
      SetAllDistinct(m + [pairs[0]], pairs[1..]);
    }
  }

  /** Nothing changes when no key is repeated. */
  lemma LastWinsDistinct<V>(pairs: seq<Pair<V>>)
    requires DistinctKeys(pairs)
    ensures LastWins(pairs) == pairs
  {
    assert [] + pairs == pairs;
    SetAllDistinct([], pairs);
  }

  // ---------------------------------------------------------------- conversion

  function ValueOf(bare: Option<BareItem>): BareItem { if bare.Some? then bare.value else TRUE }

  function PairsOf(raw: seq<RawParameter>): seq<Pair<BareItem>> {
    seq(|raw|, i requires 0 <= i < |raw| => Pair(raw[i].key, ValueOf(raw[i].bare)))
  }

  function ParametersOf(raw: seq<RawParameter>): Parameters { LastWins(PairsOf(raw)) }

  function ItemOf(raw: RawItem): Item { Item(ValueOf(raw.bare), ParametersOf(raw.params)) }

  function ItemsOf(raw: seq<RawItem>): seq<Item> { seq(|raw|, i requires 0 <= i < |raw| => ItemOf(raw[i])) }

  function MemberOf(raw: RawMember): Member {
    match raw
    case RawItemMember(item) => ItemMember(ItemOf(item))
    case RawInnerList(items, params) => InnerList(ItemsOf(items), ParametersOf(params))
  }

  function MembersOf(raw: seq<RawMember>): seq<Member> { seq(|raw|, i requires 0 <= i < |raw| => MemberOf(raw[i])) }

  function EntryPairs(raw: seq<RawEntry>): seq<Pair<RawMember>> {
    seq(|raw|, i requires 0 <= i < |raw| => Pair(raw[i].key, raw[i].member))
  }

  function EntriesOf(raw: seq<Pair<RawMember>>): seq<Pair<Member>> {
    seq(|raw|, i requires 0 <= i < |raw| => Pair(raw[i].key, MemberOf(raw[i].value)))
  }

  function FieldOf(raw: RawField): Field {
    match raw
    case RawItemField(item) => ItemField(ItemOf(item))
    case RawListField(members) => ListField(MembersOf(members))
    case RawDictionaryField(entries) => DictionaryField(EntriesOf(LastWins(EntryPairs(entries))))
  }

  function ParsedField(lim: Limits, s: Text, fieldType: FieldType): Outcome<Field> {
    var raw :- ParsedRaw(lim, s, fieldType);
    Ok(FieldOf(raw))
  }

  method CollectParameters(raw: seq<RawParameter>) returns (values: Parameters)
    ensures values == ParametersOf(raw)
  {
    values := [];
    ghost var pairs := PairsOf(raw);
    for i := 0 to |raw|
      invariant SetAll([], pairs) == SetAll(values, pairs[i..])
    {
      assert pairs[i..][1..] == pairs[i + 1..];
      values := Set(values, Pair(raw[i].key, ValueOf(raw[i].bare)));
    }
  }

  /** Repeated entries are resolved before any member is converted. */
  method ConvertDictionary(raw: seq<RawEntry>) returns (entries: seq<Pair<Member>>)
    ensures DictionaryField(entries) == FieldOf(RawDictionaryField(raw))
  {
    var last: seq<Pair<RawMember>> := [];
    ghost var pairs := EntryPairs(raw);
    for i := 0 to |raw|
      invariant SetAll([], pairs) == SetAll(last, pairs[i..])
    {
      assert pairs[i..][1..] == pairs[i + 1..];
      last := Set(last, Pair(raw[i].key, raw[i].member));
    }
    entries := [];
    for i := 0 to |last|
      invariant entries == EntriesOf(last)[..i]
    {
      entries := entries + [Pair(last[i].key, MemberOf(last[i].value))];
    }
  }

  method Parse(lim: Limits, input: Text, fieldType: FieldType) returns (r: Outcome<Field>)
    ensures r == ParsedField(lim, input, fieldType)
  {
    var raw :- ParseRaw(lim, input, fieldType);
    match raw {
      case RawDictionaryField(entries) =>
        var converted := ConvertDictionary(entries);
        r := Ok(DictionaryField(converted));
      case _ =>
        r := Ok(FieldOf(raw));
    }
  }
}
