/** The JSON texts of a value (RFC 8259), of which the charged size is the least length. */
module JsonText {
  import opened Basics
  import opened JwksInput
  import Utf8

  /** Spaces, tabs and line ends. */
  predicate Blank(w: seq<Byte>) { forall i | 0 <= i < |w| :: w[i] == 32 || w[i] == 9 || w[i] == 10 || w[i] == 13 }

  // ---------------------------------------------------------------- strings

  /** A hexadecimal digit in either case. */
  predicate HexDigit(b: int, n: int) { (0 <= n <= 9 && b == 48 + n) || (10 <= n <= 15 && (b == 87 + n || b == 55 + n)) }

  /** A backslash, a `u` and four digits. */
  predicate UnicodeOf(w: seq<Byte>, c: int) {
    && |w| >= 6 && w[0] == 92 && w[1] == 117
    && HexDigit(w[2], c / 4096) && HexDigit(w[3], c / 256 % 16) && HexDigit(w[4], c / 16 % 16) && HexDigit(w[5], c % 16)
  }

  /** A backslash, and a quote, a backslash, a slash or one of the letters b, t, n, f and r. */
  predicate EscapeOf(w: seq<Byte>, c: int) {
    && |w| >= 2 && w[0] == 92
    && ((w[1] == c && (c == 34 || c == 92 || c == 47))
        || (w[1] == 98 && c == 8) || (w[1] == 116 && c == 9) || (w[1] == 110 && c == 10)
        || (w[1] == 102 && c == 12) || (w[1] == 114 && c == 13))
  }

  /** A character that may stand for itself: no control, no quote, no backslash, and no surrogate. */
  predicate Literal(c: int) { 32 <= c && c != 34 && c != 92 && !(0xD800 <= c <= 0xDFFF) }

  ghost predicate SpellsUnits(w: seq<Byte>, t: Text, i: nat)
    requires i <= |t|
    decreases |t| - i
  {
    if i == |t| then w == []
    else
      || (Literal(t[i]) && Utf8.EncodeOne(t[i]) <= w && SpellsUnits(w[|Utf8.EncodeOne(t[i])|..], t, i + 1))
      || (EscapeOf(w, t[i]) && SpellsUnits(w[2..], t, i + 1))
      || (UnicodeOf(w, t[i]) && SpellsUnits(w[6..], t, i + 1))
      || (i + 1 < |t| && 0xD800 <= t[i] <= 0xDBFF && 0xDC00 <= t[i + 1] <= 0xDFFF
          && Utf8.EncodePair(t[i], t[i + 1]) <= w && SpellsUnits(w[4..], t, i + 2))
  }

  ghost predicate SpellsString(w: seq<Byte>, t: Text) {
    |w| >= 2 && w[0] == 34 && w[|w| - 1] == 34 && SpellsUnits(w[1..|w| - 1], t, 0)
  }

  // ---------------------------------------------------------------- values

  ghost predicate SpellsScalar(w: seq<Byte>, v: Value) {
    match v
    case Null => w == [110, 117, 108, 108]
    case Boolean(flag) => w == if flag then [116, 114, 117, 101] else [102, 97, 108, 115, 101]
    case Number(finite, digits) => finite && w == digits
    case Str(t) => SpellsString(w, t)
    case _ => false
  }

  ghost predicate SpellsTree(w: seq<Byte>, t: Tree)
    decreases t, 0
  {
    match t
    case Leaf(v) => SpellsScalar(w, v)
    case Branch(None, kids) =>
      |w| >= 2 && w[0] == 91 && w[|w| - 1] == 93 && SpellsItems(w[1..|w| - 1], kids, 0)
    case Branch(Some(keys), kids) =>
      |w| >= 2 && w[0] == 123 && w[|w| - 1] == 125 && |keys| == |kids| && SpellsMembers(w[1..|w| - 1], keys, kids, 0)
  }

  /** A value with blanks around it. */
  ghost predicate SpellsValue(w: seq<Byte>, t: Tree)
    decreases t, 1
  {
    exists j: nat, k: nat :: j <= k <= |w| && Blank(w[..j]) && SpellsTree(w[j..k], t) && Blank(w[k..])
  }

  /** The values from `i` on with commas between them, or blanks alone if there is none at all. */
  ghost predicate SpellsItems(w: seq<Byte>, kids: seq<Tree>, i: nat)
    requires i <= |kids|
    decreases kids, |kids| - i
  {
    if i == |kids| then Blank(w)
    else if i + 1 == |kids| then SpellsValue(w, kids[i])
    else exists k: nat :: k < |w| && SpellsValue(w[..k], kids[i]) && w[k] == 44 && SpellsItems(w[k + 1..], kids, i + 1)
  }

  /** A key with blanks around it, a colon and a value. */
  ghost predicate SpellsMember(w: seq<Byte>, key: Text, t: Tree)
    decreases t, 2
  {
    exists j: nat, k: nat, c: nat ::
      && j <= k <= c < |w| && Blank(w[..j]) && SpellsString(w[j..k], key) && Blank(w[k..c])
      && w[c] == 58 && SpellsValue(w[c + 1..], t)
  }

  ghost predicate SpellsMembers(w: seq<Byte>, keys: seq<Text>, kids: seq<Tree>, i: nat)
    requires i <= |kids| == |keys|
    decreases kids, |kids| - i
  {
    if i == |kids| then Blank(w)
    else if i + 1 == |kids| then SpellsMember(w, keys[i], kids[i])
    else exists k: nat ::
      k < |w| && SpellsMember(w[..k], keys[i], kids[i]) && w[k] == 44 && SpellsMembers(w[k + 1..], keys, kids, i + 1)
  }

  // ---------------------------------------------------------------- no text is shorter

  lemma {:induction false} UnitsAreLeast(w: seq<Byte>, t: Text, i: nat)
    requires i <= |t| && SpellsUnits(w, t, i)
    ensures UnitsFrom(t, i) <= |w|
    decreases |t| - i
  {
    hide HexDigit, Utf8.EncodePair;
    if i < |t| {
      if Literal(t[i]) && Utf8.EncodeOne(t[i]) <= w && SpellsUnits(w[|Utf8.EncodeOne(t[i])|..], t, i + 1) {
        UnitsAreLeast(w[|Utf8.EncodeOne(t[i])|..], t, i + 1);
      } else if EscapeOf(w, t[i]) && SpellsUnits(w[2..], t, i + 1) {
        UnitsAreLeast(w[2..], t, i + 1);
      } else if UnicodeOf(w, t[i]) && SpellsUnits(w[6..], t, i + 1) {
        UnitsAreLeast(w[6..], t, i + 1);
        LowAlone(t, i);
      } else {
        UnitsAreLeast(w[4..], t, i + 2);
      }
    }
  }

  /** A pair costs no more than its halves. */
  lemma LowAlone(t: Text, i: nat)
    requires i < |t|
    ensures UnitsFrom(t, i) <= 6 + UnitsFrom(t, i + 1)
  {
  }

  lemma {:induction false} ScalarIsLeast(w: seq<Byte>, v: Value)
    requires SpellsScalar(w, v)
    ensures ScalarCost(v) <= |w|
  {
    hide SpellsString, StringCost;
    if v.Str? {
      StringIsLeast(w, v.text);
    }
  }

  lemma {:induction false} TreeIsLeast(w: seq<Byte>, t: Tree)
    requires SpellsTree(w, t)
    ensures Size(t) <= |w|
    decreases t, 0
  {
    hide SpellsScalar, SpellsItems, SpellsMembers, ScalarCost, RestCost, KeysCost;
    match t {
      case Leaf(v) => ScalarIsLeast(w, v);
      case Branch(None, kids) => ItemsAreLeast(w[1..|w| - 1], kids, 0);
      case Branch(Some(keys), kids) => MembersAreLeast(w[1..|w| - 1], keys, kids, 0);
    }
  }

  lemma {:induction false} ValueIsLeast(w: seq<Byte>, t: Tree)
    requires SpellsValue(w, t)
    ensures Size(t) <= |w|
    decreases t, 1
  {
    hide SpellsTree, Size, Blank;
    var j: nat, k: nat :| j <= k <= |w| && Blank(w[..j]) && SpellsTree(w[j..k], t) && Blank(w[k..]);
    TreeIsLeast(w[j..k], t);
  }

  lemma {:induction false} ItemsAreLeast(w: seq<Byte>, kids: seq<Tree>, i: nat)
    requires i <= |kids| && SpellsItems(w, kids, i)
    ensures RestCost(true, kids, i) <= |w| + if 0 < i < |kids| then 1 else 0
    decreases kids, |kids| - i
  {
    hide SpellsValue, Size, Blank;
    if i + 1 == |kids| {
      ValueIsLeast(w, kids[i]);
      assert RestCost(true, kids, i + 1) == 0;
    } else if i < |kids| {
      var k: nat :| k < |w| && SpellsValue(w[..k], kids[i]) && w[k] == 44 && SpellsItems(w[k + 1..], kids, i + 1);
      ValueIsLeast(w[..k], kids[i]);
      ItemsAreLeast(w[k + 1..], kids, i + 1);
    }
  }

  lemma {:induction false} MemberIsLeast(w: seq<Byte>, key: Text, t: Tree)
    requires SpellsMember(w, key, t)
    ensures StringCost(key) + 1 + Size(t) <= |w|
    decreases t, 2
  {
    hide SpellsMember, SpellsString, SpellsValue, StringCost, Size, Blank;
    var j, k, c := MemberPieces(w, key, t);
    StringIsLeast(w[j..k], key);
    ValueIsLeast(w[c + 1..], t);
  }

  lemma MemberPieces(w: seq<Byte>, key: Text, t: Tree) returns (j: nat, k: nat, c: nat)
    requires SpellsMember(w, key, t)
    ensures j <= k <= c < |w| && SpellsString(w[j..k], key) && SpellsValue(w[c + 1..], t)
  {
    hide SpellsString, SpellsValue, Blank;
    j, k, c :|
      && j <= k <= c < |w| && Blank(w[..j]) && SpellsString(w[j..k], key) && Blank(w[k..c])
      && w[c] == 58 && SpellsValue(w[c + 1..], t);
  }

  lemma StringIsLeast(w: seq<Byte>, t: Text)
    requires SpellsString(w, t)
    ensures StringCost(t) <= |w|
  {
    hide SpellsUnits;
    UnitsAreLeast(w[1..|w| - 1], t, 0);
  }

  lemma {:induction false} MembersAreLeast(w: seq<Byte>, keys: seq<Text>, kids: seq<Tree>, i: nat)
    requires i <= |kids| == |keys| && SpellsMembers(w, keys, kids, i)
    ensures KeysCost(keys, i) + RestCost(false, kids, i) <= |w| + if 0 < i < |kids| then 1 else 0
    decreases kids, |kids| - i
  {
    hide SpellsMember, Size, Blank, StringCost;
    if i + 1 == |kids| {
      MemberIsLeast(w, keys[i], kids[i]);
      assert RestCost(false, kids, i + 1) == 0 && KeysCost(keys, i + 1) == 0;
    } else if i < |kids| {
      var k: nat :|
        k < |w| && SpellsMember(w[..k], keys[i], kids[i]) && w[k] == 44 && SpellsMembers(w[k + 1..], keys, kids, i + 1);
      MemberIsLeast(w[..k], keys[i], kids[i]);
      MembersAreLeast(w[k + 1..], keys, kids, i + 1);
    }
  }

  // ---------------------------------------------------------------- the encoding is such a text

  lemma UnicodeSpells(c: Code, rest: seq<Byte>)
    ensures UnicodeOf(UnicodeEscape(c) + rest, c) && (UnicodeEscape(c) + rest)[6..] == rest
  {
  }

  lemma {:induction false} UnitsSpell(t: Text, i: nat)
    requires i <= |t|
    ensures SpellsUnits(EncodeUnits(t, i), t, i)
    decreases |t| - i
  {
    hide UnicodeEscape, UnicodeOf, Utf8.EncodePair, Utf8.EncodeOne;
    if i < |t| {
      var next := if PairAt(t, i) then i + 2 else i + 1;
      var w, unit, rest := EncodeUnits(t, i), EncodeUnit(t, i), EncodeUnits(t, next);
      UnitsSpell(t, next);
      assert w == unit + rest && w[|unit|..] == rest && unit <= w;
      if unit == UnicodeEscape(t[i]) {
        UnicodeSpells(t[i], rest);
      }
    }
  }

  lemma StringSpells(t: Text)
    ensures SpellsString(EncodeString(t), t)
  {
    hide SpellsUnits;
    var w := EncodeString(t);
    UnitsSpell(t, 0);
    assert w[1..|w| - 1] == EncodeUnits(t, 0);
  }

  lemma {:induction false} TreeSpells(graph: Graph, v: Value, t: Tree)
    requires Unfolds(graph, v, t)
    ensures SpellsTree(Encode(t), t)
    decreases t
  {
    hide SpellsItems, SpellsMembers, SpellsString, EncodeString, EncodeItems, EncodeMembers;
    match t {
      case Leaf(w) =>
        if w.Str? { StringSpells(w.text); }
      case Branch(keys, kids) =>
        forall i | 0 <= i < |kids| ensures SpellsTree(Encode(kids[i]), kids[i]) {
          TreeSpells(graph, Kids(NodeOf(graph, v.ref))[i], kids[i]);
        }
        var w := Encode(t);
        if keys.None? {
          assert w[1..|w| - 1] == EncodeItems(kids, 0);
          ItemsSpell(kids, 0);
        } else {
          assert w[1..|w| - 1] == EncodeMembers(keys.value, kids, 0);
          MembersSpell(keys.value, kids, 0);
        }
    }
  }

  lemma ValueSpells(w: seq<Byte>, t: Tree)
    requires SpellsTree(w, t)
    ensures SpellsValue(w, t)
  {
    hide SpellsTree;
    assert w[0..|w|] == w;
    assert Blank(w[..0]) && SpellsTree(w[0..|w|], t) && Blank(w[|w|..]);
  }

  /** What follows the comma before the `i`-th element. */
  function ItemsText(kids: seq<Tree>, i: nat): seq<Byte>
    requires i <= |kids|
  {
    if 0 < i < |kids| then EncodeItems(kids, i)[1..] else EncodeItems(kids, i)
  }

  lemma {:induction false} ItemsSpell(kids: seq<Tree>, i: nat)
    requires i <= |kids| && forall k | 0 <= k < |kids| :: SpellsTree(Encode(kids[k]), kids[k])
    ensures SpellsItems(ItemsText(kids, i), kids, i)
    decreases |kids| - i
  {
    hide SpellsTree, SpellsValue, Encode, ItemsText;
    if i < |kids| {
      ValueSpells(Encode(kids[i]), kids[i]);
      ItemsSpell(kids, i + 1);
      ItemsStep(kids, i);
    } else {
      assert ItemsText(kids, i) == [] by { ItemsEnd(kids); }
    }
  }

  lemma ItemsEnd(kids: seq<Tree>)
    ensures ItemsText(kids, |kids|) == []
  {
  }

  lemma {:induction false} ItemsStep(kids: seq<Tree>, i: nat)
    requires i < |kids|
    ensures var w, first := ItemsText(kids, i), Encode(kids[i]);
      if i + 1 == |kids| then w == first
      else |first| < |w| && w[..|first|] == first && w[|first|] == 44 && w[|first| + 1..] == ItemsText(kids, i + 1)
  {
    hide Encode;
    var w, first, rest := ItemsText(kids, i), Encode(kids[i]), EncodeItems(kids, i + 1);
    var comma: seq<Byte> := if i > 0 then [44] else [];
    assert EncodeItems(kids, i) == comma + first + rest;
    hide EncodeItems;
    assert comma + first + rest == comma + (first + rest);
    assert w == first + rest;
    if i + 1 == |kids| {
      assert rest == [] by { ItemsEnd(kids); }
    } else {
      ItemsComma(kids, i + 1);
    }
  }

  lemma ItemsComma(kids: seq<Tree>, i: nat)
    requires 0 < i < |kids|
    ensures EncodeItems(kids, i) == [44] + ItemsText(kids, i)
  {
  }

  lemma MemberSpells(w: seq<Byte>, key: Text, t: Tree)
    requires SpellsTree(w, t)
    ensures SpellsMember(EncodeString(key) + [58] + w, key, t)
  {
    hide SpellsTree, SpellsValue, SpellsString, EncodeString;
    var m, k := EncodeString(key) + [58] + w, |EncodeString(key)|;
    StringSpells(key);
    ValueSpells(w, t);
    assert m[0..k] == EncodeString(key) && m[k + 1..] == w;
    assert Blank(m[..0]) && SpellsString(m[0..k], key) && Blank(m[k..k]) && m[k] == 58 && SpellsValue(m[k + 1..], t);
  }

  function MembersText(keys: seq<Text>, kids: seq<Tree>, i: nat): seq<Byte>
    requires i <= |kids| == |keys|
  {
    if 0 < i < |kids| then EncodeMembers(keys, kids, i)[1..] else EncodeMembers(keys, kids, i)
  }

  lemma {:induction false} MembersSpell(keys: seq<Text>, kids: seq<Tree>, i: nat)
    requires i <= |kids| == |keys| && forall k | 0 <= k < |kids| :: SpellsTree(Encode(kids[k]), kids[k])
    ensures SpellsMembers(MembersText(keys, kids, i), keys, kids, i)
    decreases |kids| - i
  {
    hide SpellsTree, SpellsMember, Encode, EncodeString, MembersText;
    if i < |kids| {
      var w, first := MembersText(keys, kids, i), EncodeString(keys[i]) + [58] + Encode(kids[i]);
      MemberSpells(Encode(kids[i]), keys[i], kids[i]);
      MembersSpell(keys, kids, i + 1);
      MembersStep(keys, kids, i);
    } else {
      assert MembersText(keys, kids, i) == [] by { MembersEnd(keys, kids); }
    }
  }

  lemma MembersEnd(keys: seq<Text>, kids: seq<Tree>)
    requires |keys| == |kids|
    ensures MembersText(keys, kids, |kids|) == []
  {
  }

  lemma {:induction false} MembersStep(keys: seq<Text>, kids: seq<Tree>, i: nat)
    requires i < |kids| == |keys|
    ensures var w, first := MembersText(keys, kids, i), EncodeString(keys[i]) + [58] + Encode(kids[i]);
      if i + 1 == |kids| then w == first
      else |first| < |w| && w[..|first|] == first && w[|first|] == 44 && w[|first| + 1..] == MembersText(keys, kids, i + 1)
  {
    hide Encode, EncodeString;
    var w, rest := MembersText(keys, kids, i), EncodeMembers(keys, kids, i + 1);
    var first := EncodeString(keys[i]) + [58] + Encode(kids[i]);
    var comma: seq<Byte> := if i > 0 then [44] else [];
    assert EncodeMembers(keys, kids, i) == comma + EncodeString(keys[i]) + [58] + Encode(kids[i]) + rest;
    hide EncodeMembers;
    assert comma + EncodeString(keys[i]) + [58] + Encode(kids[i]) + rest == comma + (first + rest);
    assert w == first + rest;
    if i + 1 == |kids| {
      assert rest == [] by { MembersEnd(keys, kids); }
    } else {
      CommaFirst(keys, kids, i + 1);
    }
  }

  lemma CommaFirst(keys: seq<Text>, kids: seq<Tree>, i: nat)
    requires 0 < i < |kids| == |keys|
    ensures EncodeMembers(keys, kids, i) == [44] + MembersText(keys, kids, i)
  {
  }

  /** The charged size is the least number of bytes in which the value can be written as JSON; the encoding takes that many. */
  lemma SizeIsLeast(graph: Graph, v: Value, t: Tree)
    requires Unfolds(graph, v, t)
    ensures SpellsValue(Encode(t), t) && |Encode(t)| == Size(t)
    ensures forall w :: SpellsValue(w, t) ==> Size(t) <= |w|
  {
    hide SpellsTree, SpellsValue, Encode, Size, Unfolds;
    SizeIsLength(graph, v, t);
    TreeSpells(graph, v, t);
    ValueSpells(Encode(t), t);
    forall w | SpellsValue(w, t) ensures Size(t) <= |w| {
      ValueIsLeast(w, t);
    }
  }
}
