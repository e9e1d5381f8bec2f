/** The parser accepts exactly the spellings of the fields within its limits. */
module SfExact {
  import opened Basics
  import opened SfModel
  import opened SfParser
  import opened SfParse
  import opened SfReading
  import opened SfGrammar
  import opened SfAccepted
  import opened SfParsed
  import opened SfSerialized
  import SfSpelled

  // ---------------------------------------------------------------- separators and ends

  lemma SeparatorParts(t: Text) returns (k: nat)
    requires Separator(t)
    ensures k < |t| && Blank(t[..k]) && t[k] == 44 && Blank(t[k + 1..])
  {
    k :| k < |t| && Blank(t[..k]) && t[k] == 44 && Blank(t[k + 1..]);
  }

  /** Whatever blanks stand around the comma, the next member begins after them. */
  lemma SeparatorAccepted(s: Text, p: nat, t: Text)
    requires At(s, p, t) && Separator(t) && p + |t| < |s| && !Space(CodeAt(s, p + |t|), true)
    ensures ParseSeparator(s, p) == Ok(Cut(true, p + |t|)) && Closes(CodeAt(s, p))
  {
    hide At, SkipSpaces, Blank, Separator;
    var k := SeparatorParts(t);
    AtParts(s, p, t, k);
    AtParts(s, p, t, k + 1);
    AtIndex(s, p, t, k);
    BlankSkips(s, p, t[..k]);
    BlankSkips(s, p + k + 1, t[k + 1..]);
    BlankCloses(s, p, t[..k]);
  }

  lemma BlankCloses(s: Text, p: nat, t: Text)
    requires At(s, p, t) && Blank(t) && Closes(CodeAt(s, p + |t|))
    ensures Closes(CodeAt(s, p))
  {
    hide At;
    if t != [] { AtIndex(s, p, t, 0); }
  }

  lemma BlankEnds(s: Text, p: nat)
    requires p <= |s| && Blank(s[p..])
    ensures ParseSeparator(s, p) == Ok(Cut(false, |s|)) && Closes(CodeAt(s, p))
  {
    hide SkipSpaces, Blank;
    assert At(s, p, s[p..]);
    BlankSkips(s, p, s[p..]);
    BlankCloses(s, p, s[p..]);
  }

  lemma GapEnds(s: Text, p: nat)
    requires p <= |s| && Gap(s[p..])
    ensures SkipSpaces(s, p, false) == |s| && Closes(CodeAt(s, p))
  {
    hide SkipSpaces, Gap;
    assert At(s, p, s[p..]);
    GapSkips(s, p, s[p..]);
    assert Blank(s[p..]) by { GapIsBlank(s[p..]); }
    BlankCloses(s, p, s[p..]);
  }

  lemma GapIsBlank(t: Text)
    requires Gap(t)
    ensures Blank(t)
  {
  }

  lemma BlankThenGap(s: Text, p: nat, t: Text)
    requires At(s, p, t) && Blank(t) && Gap(s[p + |t|..])
    ensures Blank(s[p..])
  {
    forall i | 0 <= i < |s[p..]| ensures s[p..][i] == 32 || s[p..][i] == 9 {
      if i < |t| {
        AtIndex(s, p, t, i);
      } else {
        assert s[p + |t|..][i - |t|] == s[p + i];
      }
    }
  }

  // ---------------------------------------------------------------- lists

  lemma MembersPieces(t: Text, ms: seq<RawMember>) returns (j: nat, k: nat)
    requires |ms| > 1 && SpellsMembers(t, ms)
    ensures j <= k <= |t| && SpellsMember(t[..j], ms[0]) && Separator(t[j..k]) && SpellsMembers(t[k..], ms[1..])
  {
    hide SpellsMember, Separator;
    j, k :| j <= k <= |t| && SpellsMember(t[..j], ms[0]) && Separator(t[j..k]) && SpellsMembers(t[k..], ms[1..]);
  }

  lemma MembersLast(t: Text, ms: seq<RawMember>) returns (k: nat)
    requires |ms| == 1 && SpellsMembers(t, ms)
    ensures k <= |t| && SpellsMember(t[..k], ms[0]) && Blank(t[k..])
  {
    hide SpellsMember, Blank;
    k :| k <= |t| && SpellsMember(t[..k], ms[0]) && Blank(t[k..]);
  }

  lemma MembersBegin(t: Text, ms: seq<RawMember>)
    requires ms != [] && SpellsMembers(t, ms)
    ensures t != [] && t[0] != 9 && t[0] != 32 && t[0] != 44
  {
    hide SpellsMember, SpellsMembers, Separator, Blank;
    var j: nat;
    if |ms| == 1 {
      j := MembersLast(t, ms);
    } else {
      var k: nat;
      j, k := MembersPieces(t, ms);
    }
    MemberBegins(t[..j], ms[0]);
    assert t[0] == t[..j][0];
  }

  lemma ListStep(lim: Limits, s: Text, p: nat, occurrences: nat, sofar: seq<RawMember>, m: Parsed<RawMember>, more: Cut<bool>)
    requires p < |s| && |sofar| < lim.maxMembers && ParseMember(lim, s, p, occurrences) == Ok(m)
    requires ParseSeparator(s, m.next) == Ok(more)
    ensures ListFrom(lim, s, p, occurrences, sofar)
         == if more.value then ListFrom(lim, s, more.next, m.occurrences, sofar + [m.value])
            else Ok(Parsed(sofar + [m.value], more.next, m.occurrences))
  {
    hide ParseMember, ParseSeparator;
  }

  lemma {:induction false} ListAccepted(
    lim: Limits, s: Text, p: nat, occurrences: nat, sofar: seq<RawMember>, t: Text, ms: seq<RawMember>)
    requires At(s, p, t) && Gap(s[p + |t|..]) && ms != [] && SpellsMembers(t, ms)
    requires |sofar| + |ms| <= lim.maxMembers && forall i | 0 <= i < |ms| :: MemberWithin(lim, ms[i])
    requires occurrences + CountMembers(ms) <= lim.maxTotalOccurrences
    ensures ListFrom(lim, s, p, occurrences, sofar) == Ok(Parsed(sofar + ms, |s|, occurrences + CountMembers(ms)))
    decreases |ms|
  {
    hide At, Gap, Blank, Separator, ParseMember, ParseSeparator, ListFrom, SpellsMember, SpellsMembers, MemberWithin, CountMember,
         CodeAt, Closes;
    MembersBegin(t, ms);
    AtIndex(s, p, t, 0);
    assert CountMembers(ms) == CountMember(ms[0]) + CountMembers(ms[1..]);
    var counted := occurrences + CountMember(ms[0]);
    if |ms| == 1 {
      var k := MembersLast(t, ms);
      AtParts(s, p, t, k);
      BlankThenGap(s, p + k, t[k..]);
      BlankEnds(s, p + k);
      MemberAccepted(lim, s, p, occurrences, t[..k], ms[0]);
      ListStep(lim, s, p, occurrences, sofar, Parsed(ms[0], p + k, counted), Cut(false, |s|));
      assert ms == [ms[0]];
    } else {
      var j, k := MembersPieces(t, ms);
      AtParts(s, p, t, j);
      AtMiddle(s, p, t, j, k);
      AtParts(s, p, t, k);
      NextBegins(s, p + k, t[k..], ms[1..]);
      SeparatorAccepted(s, p + j, t[j..k]);
      MemberAccepted(lim, s, p, occurrences, t[..j], ms[0]);
      ListStep(lim, s, p, occurrences, sofar, Parsed(ms[0], p + j, counted), Cut(true, p + k));
      ListAccepted(lim, s, p + k, counted, sofar + [ms[0]], t[k..], ms[1..]);
      assert sofar + [ms[0]] + ms[1..] == sofar + ms;
    }
  }

  lemma NextBegins(s: Text, p: nat, t: Text, ms: seq<RawMember>)
    requires At(s, p, t) && ms != [] && SpellsMembers(t, ms)
    ensures p < |s| && !Space(CodeAt(s, p), true)
  {
    hide At, SpellsMembers;
    MembersBegin(t, ms);
    AtIndex(s, p, t, 0);
  }

  // ---------------------------------------------------------------- dictionaries

  lemma EntriesPieces(t: Text, es: seq<RawEntry>) returns (j: nat, k: nat)
    requires |es| > 1 && SpellsEntries(t, es)
    ensures j <= k <= |t| && SpellsEntry(t[..j], es[0]) && Separator(t[j..k]) && SpellsEntries(t[k..], es[1..])
  {
    hide SpellsEntry, Separator;
    j, k :| j <= k <= |t| && SpellsEntry(t[..j], es[0]) && Separator(t[j..k]) && SpellsEntries(t[k..], es[1..]);
  }

  lemma EntriesLast(t: Text, es: seq<RawEntry>) returns (k: nat)
    requires |es| == 1 && SpellsEntries(t, es)
    ensures k <= |t| && SpellsEntry(t[..k], es[0]) && Blank(t[k..])
  {
    hide SpellsEntry, Blank;
    k :| k <= |t| && SpellsEntry(t[..k], es[0]) && Blank(t[k..]);
  }

  lemma EntriesBegin(t: Text, es: seq<RawEntry>)
    requires es != [] && SpellsEntries(t, es)
    ensures t != [] && t[0] != 9 && t[0] != 32 && t[0] != 44
  {
    hide SpellsEntry, SpellsEntries, Separator, Blank;
    var j: nat;
    if |es| == 1 {
      j := EntriesLast(t, es);
    } else {
      var k: nat;
      j, k := EntriesPieces(t, es);
    }
    EntryBegins(t[..j], es[0]);
    assert t[0] == t[..j][0];
  }

  lemma DictionaryStep(lim: Limits, s: Text, p: nat, occurrences: nat, sofar: seq<RawEntry>, e: Parsed<RawEntry>, more: Cut<bool>)
    requires p < |s| && |sofar| < lim.maxMembers && ParseEntry(lim, s, p, occurrences) == Ok(e)
    requires ParseSeparator(s, e.next) == Ok(more)
    ensures DictionaryFrom(lim, s, p, occurrences, sofar)
         == if more.value then DictionaryFrom(lim, s, more.next, e.occurrences, sofar + [e.value])
            else Ok(Parsed(sofar + [e.value], more.next, e.occurrences))
  {
    hide ParseEntry, ParseSeparator;
  }

  lemma {:induction false} DictionaryAccepted(
    lim: Limits, s: Text, p: nat, occurrences: nat, sofar: seq<RawEntry>, t: Text, es: seq<RawEntry>)
    requires At(s, p, t) && Gap(s[p + |t|..]) && es != [] && SpellsEntries(t, es)
    requires |sofar| + |es| <= lim.maxMembers && forall i | 0 <= i < |es| :: EntryWithin(lim, es[i])
    requires occurrences + CountEntries(es) <= lim.maxTotalOccurrences
    ensures DictionaryFrom(lim, s, p, occurrences, sofar) == Ok(Parsed(sofar + es, |s|, occurrences + CountEntries(es)))
    decreases |es|
  {
    hide At, Gap, Blank, Separator, ParseEntry, ParseSeparator, DictionaryFrom, SpellsEntry, SpellsEntries, EntryWithin,
         CountMember, CodeAt, Closes;
    EntriesBegin(t, es);
    AtIndex(s, p, t, 0);
    assert CountEntries(es) == CountMember(es[0].member) + CountEntries(es[1..]);
    var counted := occurrences + CountMember(es[0].member);
    if |es| == 1 {
      var k := EntriesLast(t, es);
      AtParts(s, p, t, k);
      BlankThenGap(s, p + k, t[k..]);
      BlankEnds(s, p + k);
      EntryAccepted(lim, s, p, occurrences, t[..k], es[0]);
      DictionaryStep(lim, s, p, occurrences, sofar, Parsed(es[0], p + k, counted), Cut(false, |s|));
      assert es == [es[0]];
    } else {
      var j, k := EntriesPieces(t, es);
      AtParts(s, p, t, j);
      AtMiddle(s, p, t, j, k);
      AtParts(s, p, t, k);
      NextEntryBegins(s, p + k, t[k..], es[1..]);
      SeparatorAccepted(s, p + j, t[j..k]);
      EntryAccepted(lim, s, p, occurrences, t[..j], es[0]);
      DictionaryStep(lim, s, p, occurrences, sofar, Parsed(es[0], p + j, counted), Cut(true, p + k));
      DictionaryAccepted(lim, s, p + k, counted, sofar + [es[0]], t[k..], es[1..]);
      assert sofar + [es[0]] + es[1..] == sofar + es;
    }
  }

  lemma NextEntryBegins(s: Text, p: nat, t: Text, es: seq<RawEntry>)
    requires At(s, p, t) && es != [] && SpellsEntries(t, es)
    ensures p < |s| && !Space(CodeAt(s, p), true)
  {
    hide At, SpellsEntries;
    EntriesBegin(t, es);
    AtIndex(s, p, t, 0);
  }

  // ---------------------------------------------------------------- fields

  /** The parser read the whole of the text from `p` on as the field, spaces at its end included. */
  predicate ReadsRoot(lim: Limits, s: Text, p: nat, f: RawField)
    requires p <= |s|
  {
    var r := ParseRoot(lim, s, p, RawTypeOf(f));
    r.Ok? && r.value.value == f && SkipSpaces(s, r.value.next, false) == |s|
  }

  predicate NoElements(f: RawField) { (f.RawListField? && f.members == []) || (f.RawDictionaryField? && f.entries == []) }

  lemma AtBound(s: Text, p: nat, t: Text)
    requires At(s, p, t)
    ensures p + |t| <= |s|
  {
  }

  lemma RootAccepted(lim: Limits, s: Text, p: nat, t: Text, f: RawField)
    requires At(s, p, t) && Gap(s[p + |t|..]) && SpellsRoot(t, f) && Within(lim, f) && !NoElements(f)
    ensures ReadsRoot(lim, s, p, f) && !Space(CodeAt(s, p), false)
  {
    hide At, Gap, ParseItem, ListFrom, DictionaryFrom, SkipSpaces, SpellsItem, SpellsMembers, SpellsEntries, CountItem, CountMembers,
         CountEntries, ItemWithin, MemberWithin, EntryWithin;
    match f {
      case RawItemField(i) =>
        AtBound(s, p, t);
        GapEnds(s, p + |t|);
        ItemAccepted(lim, s, p, 0, t, i);
        ItemBegins(t, i);
        AtIndex(s, p, t, 0);
      case RawListField(ms) =>
        ListAccepted(lim, s, p, 0, [], t, ms);
        NextBegins(s, p, t, ms);
        NothingLeft(s);
        assert [] + ms == ms;
      case RawDictionaryField(es) =>
        DictionaryAccepted(lim, s, p, 0, [], t, es);
        NextEntryBegins(s, p, t, es);
        NothingLeft(s);
        assert [] + es == es;
    }
  }

  lemma NothingLeft(s: Text)
    ensures SkipSpaces(s, |s|, false) == |s|
  {
  }

  lemma SpacesAlone(lim: Limits, s: Text, f: RawField)
    requires Gap(s) && NoElements(f)
    ensures ParseField(lim, s, RawTypeOf(f)) == Ok(f)
  {
    assert s[0..] == s;
    GapEnds(s, 0);
    NothingLeft(s);
    SfSpelled.NoMembers(lim, s);
  }

  lemma Pieces(t: Text, f: RawField) returns (j: nat, k: nat)
    requires Spells(t, f)
    ensures j <= k <= |t| && Gap(t[..j]) && SpellsRoot(t[j..k], f) && Gap(t[k..])
  {
    hide Gap, SpellsRoot;
    j, k :| j <= k <= |t| && Gap(t[..j]) && SpellsRoot(t[j..k], f) && Gap(t[k..]);
  }

  lemma FieldAccepted(lim: Limits, t: Text, f: RawField)
    requires Spells(t, f) && Within(lim, f)
    ensures ParseField(lim, t, RawTypeOf(f)) == Ok(f)
  {
    hide Gap, SpellsRoot, Spells, Within, ParseRoot, SkipSpaces, NoElements, ParseField;
    var j, k := Pieces(t, f);
    if NoElements(f) {
      NoText(t, j, k, f);
      SpacesAlone(lim, t, f);
    } else {
      assert At(t, 0, t[..j]) && At(t, j, t[j..k]);
      RootAccepted(lim, t, j, t[j..k], f);
      GapSkips(t, 0, t[..j]);
      FieldStep(lim, t, j, f);
    }
  }

  lemma FieldStep(lim: Limits, t: Text, j: nat, f: RawField)
    requires j <= |t| && SkipSpaces(t, 0, false) == j && ReadsRoot(lim, t, j, f)
    ensures ParseField(lim, t, RawTypeOf(f)) == Ok(f)
  {
    hide ParseRoot, SkipSpaces;
  }

  lemma NoText(t: Text, j: nat, k: nat, f: RawField)
    requires NoElements(f) && j <= k <= |t| && Gap(t[..j]) && SpellsRoot(t[j..k], f) && Gap(t[k..])
    ensures Gap(t)
  {
    assert |t[j..k]| == 0;
    forall i | 0 <= i < |t| ensures t[i] == 32 {
      if i < j { assert t[..j][i] == 32; } else { assert t[k..][i - k] == 32; }
    }
  }

  // ---------------------------------------------------------------- what is parsed is within the limits

  lemma ParametersAreWithin(lim: Limits, ps: seq<RawParameter>)
    requires RawParametersOk(lim, ps)
    ensures ParametersWithin(lim, ps)
  {
    hide ValidKey, ValidBare, BareFits, BareWithin;
    forall i | 0 <= i < |ps| ensures |ps[i].key| <= lim.maxKeyLength && (ps[i].bare.Some? ==> BareWithin(lim, ps[i].bare.value)) {
      assert RawParameterOk(lim, ps[i]);
      BareIsWithin(lim, ps[i].bare);
    }
  }

  lemma BareIsWithin(lim: Limits, bare: Option<BareItem>)
    requires BareOk(lim, ValueOf(bare))
    ensures bare.Some? ==> BareWithin(lim, bare.value)
  {
    hide ValidKey, ValidToken;
  }

  lemma ItemIsWithin(lim: Limits, i: RawItem)
    requires RawItemOk(lim, i)
    ensures ItemWithin(lim, i) && RawItemOccurrences(i) == CountItem(i)
  {
    hide BareOk, BareWithin, RawParametersOk, ParametersWithin;
    BareIsWithin(lim, i.bare);
    ParametersAreWithin(lim, i.params);
  }

  lemma {:induction false} ItemsAreWithin(lim: Limits, items: seq<RawItem>)
    requires forall k | 0 <= k < |items| :: RawItemOk(lim, items[k])
    ensures (forall k | 0 <= k < |items| :: ItemWithin(lim, items[k])) && RawItemsOccurrences(items) == CountItems(items)
  {
    hide RawItemOk, ItemWithin, RawItemOccurrences, CountItem;
    if items != [] {
      ItemIsWithin(lim, items[0]);
      ItemsAreWithin(lim, items[1..]);
      forall k | 0 <= k < |items| ensures ItemWithin(lim, items[k]) {
        if k > 0 { assert items[k] == items[1..][k - 1]; }
      }
    }
  }

  lemma MemberIsWithin(lim: Limits, m: RawMember)
    requires RawMemberOk(lim, m)
    ensures MemberWithin(lim, m) && RawMemberOccurrences(m) == CountMember(m)
  {
    hide RawItemOk, ItemWithin, RawItemOccurrences, CountItem, RawItemsOccurrences, CountItems, RawParametersOk, ParametersWithin;
    match m {
      case RawItemMember(i) => ItemIsWithin(lim, i);
      case RawInnerList(items, ps) =>
        ItemsAreWithin(lim, items);
        ParametersAreWithin(lim, ps);
    }
  }

  lemma {:induction false} MembersAreWithin(lim: Limits, ms: seq<RawMember>)
    requires forall k | 0 <= k < |ms| :: RawMemberOk(lim, ms[k])
    ensures (forall k | 0 <= k < |ms| :: MemberWithin(lim, ms[k])) && RawMembersOccurrences(ms) == CountMembers(ms)
  {
    hide RawMemberOk, MemberWithin, RawMemberOccurrences, CountMember;
    if ms != [] {
      MemberIsWithin(lim, ms[0]);
      MembersAreWithin(lim, ms[1..]);
      forall k | 0 <= k < |ms| ensures MemberWithin(lim, ms[k]) {
        if k > 0 { assert ms[k] == ms[1..][k - 1]; }
      }
    }
  }

  lemma {:induction false} EntriesAreWithin(lim: Limits, es: seq<RawEntry>)
    requires forall k | 0 <= k < |es| :: RawEntryOk(lim, es[k])
    ensures forall k | 0 <= k < |es| :: EntryWithin(lim, es[k])
    ensures Weight(EntryPairs(es), EntryWeight()) == CountEntries(es)
  {
    hide ValidKey, RawMemberOk, MemberWithin, RawMemberOccurrences, CountMember;
    if es != [] {
      assert RawEntryOk(lim, es[0]);
      MemberIsWithin(lim, es[0].member);
      EntriesAreWithin(lim, es[1..]);
      assert EntryPairs(es)[1..] == EntryPairs(es[1..]);
      forall k | 0 <= k < |es| ensures EntryWithin(lim, es[k]) {
        if k > 0 { assert es[k] == es[1..][k - 1]; }
      }
    }
  }

  lemma RootIsWithin(lim: Limits, s: Text, p: nat, fieldType: FieldType)
    requires p <= |s| && ParseRoot(lim, s, p, fieldType).Ok?
    ensures Within(lim, ParseRoot(lim, s, p, fieldType).value.value)
  {
    hide ParseItem, ListFrom, DictionaryFrom, RawItemOk, RawMemberOk, RawEntryOk, ItemWithin, MemberWithin, EntryWithin,
         RawItemOccurrences, CountItem, RawMemberOccurrences, CountMember, Weight, EntryPairs;
    match fieldType {
      case ItemType =>
        ItemIsOk(lim, s, p, 0);
        ItemIsWithin(lim, ParseItem(lim, s, p, 0).value.value);
      case ListType =>
        ListIsOk(lim, s, p, 0, []);
        MembersAreWithin(lim, ListFrom(lim, s, p, 0, []).value.value);
      case DictionaryType =>
        EntriesAreWithin(lim, []);
        DictionaryIsOk(lim, s, p, 0, []);
        EntriesAreWithin(lim, DictionaryFrom(lim, s, p, 0, []).value.value);
    }
  }

  /**
   * A text is parsed to a field exactly if it is ASCII and not too long, spells the field, and the field is
   * within the limits.
   */
  lemma ParsesExactlySpellings(lim: Limits, t: Text, fieldType: FieldType, f: RawField)
    ensures ParsedRaw(lim, t, fieldType) == Ok(f)
      <==> |t| <= lim.maxInputBytes && Ascii(t) && RawTypeOf(f) == fieldType && Spells(t, f) && Within(lim, f)
  {
    hide ParseField, Spells, Within, RawTypeOf;
    if ParseField(lim, t, fieldType) == Ok(f) {
      SfSpelled.FieldSpelled(lim, t, fieldType);
      ParsedWithin(lim, t, fieldType);
    }
    if RawTypeOf(f) == fieldType && Spells(t, f) && Within(lim, f) {
      FieldAccepted(lim, t, f);
    }
  }

  /** So is its value: that of the one field it spells, with the last value of every repeated key. */
  lemma ValuesOfSpellings(lim: Limits, t: Text, fieldType: FieldType, v: Field)
    ensures ParsedField(lim, t, fieldType) == Ok(v)
      <==> && |t| <= lim.maxInputBytes && Ascii(t)
           && exists f :: RawTypeOf(f) == fieldType && Spells(t, f) && Within(lim, f) && FieldOf(f) == v
  {
    hide ParsedRaw, Spells, Within, RawTypeOf, FieldOf;
    var r := ParsedRaw(lim, t, fieldType);
    if r.Ok? {
      ParsesExactlySpellings(lim, t, fieldType, r.value);
    }
    forall f | RawTypeOf(f) == fieldType && Spells(t, f) && Within(lim, f) && |t| <= lim.maxInputBytes && Ascii(t)
      ensures r == Ok(f)
    {
      ParsesExactlySpellings(lim, t, fieldType, f);
    }
  }

  lemma ParsedWithin(lim: Limits, t: Text, fieldType: FieldType)
    requires ParseField(lim, t, fieldType).Ok?
    ensures Within(lim, ParseField(lim, t, fieldType).value)
  {
    hide ParseRoot, SkipSpaces, Within;
    RootIsWithin(lim, t, SkipSpaces(t, 0, false), fieldType);
  }
}
