// One row of the item file: ExportItemsCSV of internal/services/export.go writes it and buildItemFromRow of
// internal/services/scale_service.go reads it.
module ItemsCsv {
  import opened Wrappers
  import opened Survey
  import opened Text
  import opened Decimal
  import opened CsvLists
  import opened ItemsHeader

  const STEM_REQUIRED := "stem required in at least one language"

  function Flag(b: bool): string {
    if b then "true" else "false"
  }

  function ToCells(it: Item): Columns<string> {
    var b := it.body;
    Columns(
      it.id, Itoa(it.order), b.itemType, Flag(b.required), Flag(b.reverseScored), Itoa(b.min), Itoa(b.max), Itoa(b.step),
      Localized(b.stem, "en"), Localized(b.stem, "zh"),
      Join(LocalizedList(b.options, "en")), Join(LocalizedList(b.options, "zh")),
      Localized(b.placeholder, "en"), Localized(b.placeholder, "zh"),
      Join(LocalizedList(b.likertLabels, "en")), Join(LocalizedList(b.likertLabels, "zh")),
      Flag(b.likertShowNumbers))
  }

  function ParseBool(s: string): bool {
    var t := Lower(Trim(s));
    t == "1" || t == "true" || t == "yes" || t == "y"
  }

  function ParseInt(s: string): int {
    Atoi(Trim(s))
  }

  // The languages something is given in; None is the nil map of an item without any.
  function Pair<T>(en: Option<T>, zh: Option<T>): Option<map<string, T>> {
    match (en, zh)
    case (None, None) => None
    case (Some(e), None) => Some(map["en" := e])
    case (None, Some(z)) => Some(map["zh" := z])
    case (Some(e), Some(z)) => Some(map["en" := e, "zh" := z])
  }

  function Text1(cell: string): Option<string> {
    if Trim(cell) == "" then None else Some(Trim(cell))
  }

  function List1(cell: string): Option<seq<string>> {
    if Trim(cell) == "" then None else Some(SplitList(Trim(cell)))
  }

  function ParseTexts(en: string, zh: string): Option<map<string, string>> {
    Pair(Text1(en), Text1(zh))
  }

  function ParseLists(en: string, zh: string): Option<map<string, seq<string>>> {
    Pair(List1(en), List1(zh))
  }

  function BodyOf(c: Columns<string>): Body {
    Body(
      ParseBool(c.reverseScored),
      ParseTexts(c.stemEn, c.stemZh),
      if Trim(c.itemType) == "" then "likert" else Trim(c.itemType),
      ParseLists(c.optionsEn, c.optionsZh),
      ParseTexts(c.placeholderEn, c.placeholderZh),
      ParseInt(c.min), ParseInt(c.max), ParseInt(c.step),
      ParseBool(c.required),
      ParseLists(c.likertLabelsEn, c.likertLabelsZh),
      ParseBool(c.likertShowNumbers))
  }

  function FromCells(c: Columns<string>, scaleId: string, generated: string): Result<Item, string> {
    if ParseTexts(c.stemEn, c.stemZh).None? then Err(STEM_REQUIRED)
    else Ok(Item(if Trim(c.itemId) != "" then Trim(c.itemId) else generated, scaleId, ParseInt(c.position), BodyOf(c)))
  }

  method ExportTexts(texts: Option<map<string, string>>) returns (en: string, zh: string)
    ensures en == Localized(texts, "en") && zh == Localized(texts, "zh")
  {
    en, zh := "", "";
    if texts.Some? {
      en, zh := Localized(texts, "en"), Localized(texts, "zh");
    }
  }

  method ExportLists(lists: Option<map<string, seq<string>>>) returns (en: string, zh: string)
    ensures en == Join(LocalizedList(lists, "en")) && zh == Join(LocalizedList(lists, "zh"))
  {
    en, zh := "", "";
    if lists.Some? {
      en := JoinList(LocalizedList(lists, "en"));
      zh := JoinList(LocalizedList(lists, "zh"));
    }
  }

  method ExportRecord(it: Item) returns (rec: seq<string>)
    requires InRange(it)
    ensures rec == AsRow(ToCells(it))
  {
    var b := it.body;
    var stemEn, stemZh := ExportTexts(b.stem);
    var optionsEn, optionsZh := ExportLists(b.options);
    var placeholderEn, placeholderZh := ExportTexts(b.placeholder);
    var labelsEn, labelsZh := ExportLists(b.likertLabels);
    var order := ItoaInBuffer(it.order);
    var min := ItoaInBuffer(b.min);
    var max := ItoaInBuffer(b.max);
    var step := ItoaInBuffer(b.step);
    rec := [it.id, order, b.itemType, Flag(b.required), Flag(b.reverseScored), min, max, step,
            stemEn, stemZh, optionsEn, optionsZh, placeholderEn, placeholderZh, labelsEn, labelsZh,
            Flag(b.likertShowNumbers)];
  }

  // What the file says of an item, column by column: numbers as numerals, flags as words, an absent text or list as "".
  lemma WrittenUnderNames(it: Item)
    ensures
      var b, h, row := it.body, NAMES, AsRow(ToCells(it));
      && Under(h, row, "item_id") == it.id && Under(h, row, "position") == Itoa(it.order)
      && Under(h, row, "type") == b.itemType
      && Under(h, row, "min") == Itoa(b.min) && Under(h, row, "max") == Itoa(b.max) && Under(h, row, "step") == Itoa(b.step)
      && Under(h, row, "required") == (if b.required then "true" else "false")
      && Under(h, row, "reverse_scored") == (if b.reverseScored then "true" else "false")
      && Under(h, row, "likert_show_numbers") == (if b.likertShowNumbers then "true" else "false")
  {
    OwnColumns(ToCells(it));
  }

  lemma TextsUnderNames(it: Item)
    ensures
      var b, h, row := it.body, NAMES, AsRow(ToCells(it));
      && IsText(b.stem, "en", Under(h, row, "stem_en")) && IsText(b.stem, "zh", Under(h, row, "stem_zh"))
      && IsText(b.placeholder, "en", Under(h, row, "placeholder_en")) && IsText(b.placeholder, "zh", Under(h, row, "placeholder_zh"))
      && IsList(b.options, "en", Under(h, row, "options_en")) && IsList(b.options, "zh", Under(h, row, "options_zh"))
      && IsList(b.likertLabels, "en", Under(h, row, "likert_labels_en"))
      && IsList(b.likertLabels, "zh", Under(h, row, "likert_labels_zh"))
  {
    OwnColumns(ToCells(it));
  }

  predicate IsText(texts: Option<map<string, string>>, lang: string, cell: string) {
    cell == if texts.Some? && lang in texts.value then texts.value[lang] else ""
  }

  // The entries with a blank, a bar and a blank between them.
  predicate IsList(lists: Option<map<string, seq<string>>>, lang: string, cell: string) {
    cell == if lists.Some? && lang in lists.value then JoinWith(lists.value[lang], " | ") else ""
  }

  lemma OwnColumns(c: Columns<string>)
    ensures
      && Under(NAMES, AsRow(c), "item_id") == c.itemId && Under(NAMES, AsRow(c), "position") == c.position
      && Under(NAMES, AsRow(c), "type") == c.itemType && Under(NAMES, AsRow(c), "required") == c.required
      && Under(NAMES, AsRow(c), "reverse_scored") == c.reverseScored
      && Under(NAMES, AsRow(c), "min") == c.min && Under(NAMES, AsRow(c), "max") == c.max && Under(NAMES, AsRow(c), "step") == c.step
      && Under(NAMES, AsRow(c), "stem_en") == c.stemEn && Under(NAMES, AsRow(c), "stem_zh") == c.stemZh
      && Under(NAMES, AsRow(c), "options_en") == c.optionsEn && Under(NAMES, AsRow(c), "options_zh") == c.optionsZh
      && Under(NAMES, AsRow(c), "placeholder_en") == c.placeholderEn && Under(NAMES, AsRow(c), "placeholder_zh") == c.placeholderZh
      && Under(NAMES, AsRow(c), "likert_labels_en") == c.likertLabelsEn && Under(NAMES, AsRow(c), "likert_labels_zh") == c.likertLabelsZh
      && Under(NAMES, AsRow(c), "likert_show_numbers") == c.likertShowNumbers
  {
    CellsOfOwnHeader(c);
    ReadUnderNames(NAMES, AsRow(c));
  }

  // Go's int.
  predicate InRange(it: Item) {
    && MIN_INT64 <= it.order <= MAX_INT64
    && MIN_INT64 <= it.body.min <= MAX_INT64
    && MIN_INT64 <= it.body.max <= MAX_INT64
    && MIN_INT64 <= it.body.step <= MAX_INT64
  }

  method ParseTextPair(en: string, zh: string) returns (r: Option<map<string, string>>)
    ensures r == ParseTexts(en, zh)
  {
    var e, z := Trim(en), Trim(zh);
    if e == "" && z == "" {
      return None;
    }
    var m := map[];
    if e != "" {
      m := m["en" := e];
    }
    if z != "" {
      m := m["zh" := z];
    }
    r := Some(m);
    assert m == ParseTexts(en, zh).value;
  }

  method ParseListPair(en: string, zh: string) returns (r: Option<map<string, seq<string>>>)
    ensures r == ParseLists(en, zh)
  {
    var e, z := Trim(en), Trim(zh);
    if e == "" && z == "" {
      return None;
    }
    var m := map[];
    if e != "" {
      var entries := CsvSplitList(e);
      m := m["en" := entries];
    }
    if z != "" {
      var entries := CsvSplitList(z);
      m := m["zh" := entries];
    }
    r := Some(m);
    assert m == ParseLists(en, zh).value;
  }

  method BuildItemFromRow(header: seq<string>, row: seq<string>, scaleId: string, generated: string)
    returns (r: Result<Item, string>)
    ensures r == FromCells(Cells(header, row), scaleId, generated)
    ensures r.Err? ==> r.error == STEM_REQUIRED
  {
    var h := HeaderIndex(header);
    var id := Trim(GetCell(row, h.itemId));
    if id == "" {
      id := generated;
    }
    var order := IntAt(row, h.position);
    var stem := ParseTextPair(GetCell(row, h.stemEn), GetCell(row, h.stemZh));
    if stem.None? {
      return Err(STEM_REQUIRED);
    }
    var body := BuildBody(row, h, stem);
    return Ok(Item(id, scaleId, order, body));
  }

  method BuildBody(row: seq<string>, h: Columns<int>, stem: Option<map<string, string>>) returns (b: Body)
    requires stem == ParseTexts(GetCell(row, h.stemEn), GetCell(row, h.stemZh))
    ensures b == BodyOf(PickCells(row, h))
  {
    var itemType := Trim(GetCell(row, h.itemType));
    if itemType == "" {
      itemType := "likert";
    }
    var required, reverseScored := BoolAt(row, h.required), BoolAt(row, h.reverseScored);
    var min, max, step := IntAt(row, h.min), IntAt(row, h.max), IntAt(row, h.step);
    var options := ParseListPair(GetCell(row, h.optionsEn), GetCell(row, h.optionsZh));
    var placeholder := ParseTextPair(GetCell(row, h.placeholderEn), GetCell(row, h.placeholderZh));
    var labels := ParseListPair(GetCell(row, h.likertLabelsEn), GetCell(row, h.likertLabelsZh));
    var show := BoolAt(row, h.likertShowNumbers);
    b := Body(reverseScored, stem, itemType, options, placeholder, min, max, step, required, labels, show);
  }

  // A column the header does not have leaves the field at its zero value, as an empty cell does.
  function IntAt(row: seq<string>, i: int): (n: int)
    ensures n == ParseInt(GetCell(row, i))
  {
    EmptyCell();
    if i >= 0 then ParseInt(GetCell(row, i)) else 0
  }

  function BoolAt(row: seq<string>, i: int): (b: bool)
    ensures b == ParseBool(GetCell(row, i))
  {
    EmptyCell();
    i >= 0 && ParseBool(GetCell(row, i))
  }

  lemma EmptyCell()
    ensures ParseInt("") == 0 && !ParseBool("")
  {
  }

  // The texts a pair of cells gives: none if both are blank, else those of the cells that are not, trimmed.
  predicate ReadTexts(texts: Option<map<string, string>>, en: string, zh: string) {
    && (texts.None? <==> Trim(en) == "" && Trim(zh) == "")
    && (texts.Some? ==>
         && texts.value.Keys == (if Trim(en) == "" then {} else {"en"}) + (if Trim(zh) == "" then {} else {"zh"})
         && ("en" in texts.value ==> texts.value["en"] == Trim(en)) && ("zh" in texts.value ==> texts.value["zh"] == Trim(zh)))
  }

  predicate ReadLists(lists: Option<map<string, seq<string>>>, en: string, zh: string) {
    && (lists.None? <==> Trim(en) == "" && Trim(zh) == "")
    && (lists.Some? ==>
         && lists.value.Keys == (if Trim(en) == "" then {} else {"en"}) + (if Trim(zh) == "" then {} else {"zh"})
         && ("en" in lists.value ==> lists.value["en"] == SplitList(en)) && ("zh" in lists.value ==> lists.value["zh"] == SplitList(zh)))
  }

  // A flag is set by one of four words, whatever their case and the blanks around them.
  predicate Means(cell: string, flag: bool) {
    var word := Lower(Trim(cell));
    flag <==> word == "1" || word == "true" || word == "yes" || word == "y"
  }

  lemma PairRead<T>(en: Option<T>, zh: Option<T>)
    ensures Pair(en, zh).None? <==> en.None? && zh.None?
    ensures Pair(en, zh).Some? ==>
      var m := Pair(en, zh).value;
      && m.Keys == (if en.None? then {} else {"en"}) + (if zh.None? then {} else {"zh"})
      && ("en" in m ==> Some(m["en"]) == en) && ("zh" in m ==> Some(m["zh"]) == zh)
  {
    if en.Some? || zh.Some? {
      PairHas(en, zh);
      var m := Pair(en, zh).value;
      forall key ensures key in m <==> key in (if en.None? then {} else {"en"}) + (if zh.None? then {} else {"zh"}) {
      }
    }
  }

  lemma SplitOfTrimmed(field: string)
    ensures SplitList(Trim(field)) == SplitList(field)
  {
    TrimIsTrimmed(field);
    TrimIsTrimmed(Trim(field));
  }

  lemma PairsRead(en: string, zh: string)
    ensures ReadTexts(ParseTexts(en, zh), en, zh) && ReadLists(ParseLists(en, zh), en, zh)
  {
    PairRead(Text1(en), Text1(zh));
    PairRead(List1(en), List1(zh));
    SplitOfTrimmed(en);
    SplitOfTrimmed(zh);
  }

  // What a row of the file makes of an item, column by column: it is refused exactly if both stems are blank, an id is made
  // up if there is none, and an item without a type is a Likert item.
  lemma ItemOfRow(header: seq<string>, row: seq<string>, scaleId: string, generated: string)
    ensures
      var r := FromCells(Cells(header, row), scaleId, generated);
      && (r.Err? <==> Trim(Under(header, row, "stem_en")) == "" && Trim(Under(header, row, "stem_zh")) == "")
      && (r.Ok? ==>
           && r.value.scaleId == scaleId
           && r.value.id == (if Trim(Under(header, row, "item_id")) == "" then generated else Trim(Under(header, row, "item_id")))
           && r.value.order == ParseInt(Under(header, row, "position"))
           && ReadTexts(r.value.body.stem, Under(header, row, "stem_en"), Under(header, row, "stem_zh")))
  {
    ReadUnderNames(header, row);
    PairsRead(Under(header, row, "stem_en"), Under(header, row, "stem_zh"));
  }

  lemma PlainFieldsOfRow(header: seq<string>, row: seq<string>, scaleId: string, generated: string)
    requires FromCells(Cells(header, row), scaleId, generated).Ok?
    ensures
      var b := FromCells(Cells(header, row), scaleId, generated).value.body;
      && b.itemType == (if Trim(Under(header, row, "type")) == "" then "likert" else Trim(Under(header, row, "type")))
      && b.min == ParseInt(Under(header, row, "min")) && b.max == ParseInt(Under(header, row, "max"))
      && b.step == ParseInt(Under(header, row, "step"))
  {
    ReadUnderNames(header, row);
  }

  lemma FlagsOfRow(header: seq<string>, row: seq<string>, scaleId: string, generated: string)
    requires FromCells(Cells(header, row), scaleId, generated).Ok?
    ensures
      var b := FromCells(Cells(header, row), scaleId, generated).value.body;
      && Means(Under(header, row, "required"), b.required)
      && Means(Under(header, row, "reverse_scored"), b.reverseScored)
      && Means(Under(header, row, "likert_show_numbers"), b.likertShowNumbers)
  {
    ReadUnderNames(header, row);
    FlagRead(Under(header, row, "required"));
    FlagRead(Under(header, row, "reverse_scored"));
    FlagRead(Under(header, row, "likert_show_numbers"));
  }

  lemma FlagRead(cell: string)
    ensures Means(cell, ParseBool(cell))
  {
  }

  lemma TextsAndListsOfRow(header: seq<string>, row: seq<string>, scaleId: string, generated: string)
    requires FromCells(Cells(header, row), scaleId, generated).Ok?
    ensures
      var b := FromCells(Cells(header, row), scaleId, generated).value.body;
      && ReadTexts(b.placeholder, Under(header, row, "placeholder_en"), Under(header, row, "placeholder_zh"))
      && ReadLists(b.options, Under(header, row, "options_en"), Under(header, row, "options_zh"))
      && ReadLists(b.likertLabels, Under(header, row, "likert_labels_en"), Under(header, row, "likert_labels_zh"))
  {
    ReadUnderNames(header, row);
    PairsRead(Under(header, row, "placeholder_en"), Under(header, row, "placeholder_zh"));
    PairsRead(Under(header, row, "options_en"), Under(header, row, "options_zh"));
    PairsRead(Under(header, row, "likert_labels_en"), Under(header, row, "likert_labels_zh"));
  }

  // A number is read from its numeral, with or without blanks around it, and is 0 where there is none.
  lemma NumberRead(i: int, left: string, right: string)
    requires MIN_INT64 < i <= MAX_INT64 && left in {"", " "} && right in {"", " "}
    ensures ParseInt(left + Itoa(i) + right) == i && ParseInt("") == 0
  {
    NumberComesBack(i);
    ItoaTrimmed(i);
    TrimPadded(Itoa(i), left, right);
    EmptyCell();
  }

  predicate AllInRange(items: seq<Item>) {
    items == [] || (InRange(items[0]) && AllInRange(items[1..]))
  }

  // ----- what survives the round trip -----

  predicate NormalText(s: string) {
    s != "" && Trimmed(s)
  }

  // Texts in English, Chinese or both, none of them blank or padded.
  predicate NormalTexts(texts: map<string, string>) {
    && texts != map[]
    && texts.Keys <= {"en", "zh"}
    && (forall lang :: lang in texts ==> NormalText(texts[lang]))
  }

  predicate AcceptedIn(lists: map<string, seq<string>>, lang: string) {
    lang in lists ==> lists[lang] != [] && NormalList(lists[lang])
  }

  predicate NormalLists(lists: map<string, seq<string>>) {
    && lists != map[]
    && lists.Keys <= {"en", "zh"}
    && (forall lang :: lang in lists ==> AcceptedIn(lists, lang))
  }

  predicate NormalBody(b: Body) {
    && NormalText(b.itemType)
    && MIN_INT64 !in {b.min, b.max, b.step}
    && (b.stem.Some? ==> NormalTexts(b.stem.value))
    && (b.placeholder.Some? ==> NormalTexts(b.placeholder.value))
    && (b.options.Some? ==> NormalLists(b.options.value))
    && (b.likertLabels.Some? ==> NormalLists(b.likertLabels.value))
  }

  predicate NormalItem(it: Item) {
    NormalText(it.id) && it.order != MIN_INT64 && it.body.stem.Some? && NormalBody(it.body)
  }

  predicate AllNormal(items: seq<Item>) {
    items == [] || (NormalItem(items[0]) && AllNormal(items[1..]))
  }

  function At<T>(m: map<string, T>, key: string): Option<T> {
    if key in m then Some(m[key]) else None
  }

  lemma PairIs<T>(en: Option<T>, zh: Option<T>, m: map<string, T>)
    ensures Pair(en, zh) == Some(m) <==> m != map[] && m.Keys <= {"en", "zh"} && At(m, "en") == en && At(m, "zh") == zh
  {
    var p := Pair(en, zh);
    if p.Some? {
      PairHas(en, zh);
      if m.Keys <= {"en", "zh"} && At(m, "en") == en && At(m, "zh") == zh {
        SamePair(m, p.value);
      }
    } else if m.Keys <= {"en", "zh"} && At(m, "en") == en && At(m, "zh") == zh {
      SamePair(m, map[]);
    }
  }

  lemma PairHas<T>(en: Option<T>, zh: Option<T>)
    requires en.Some? || zh.Some?
    ensures var p := Pair(en, zh);
            p.Some? && p.value != map[] && p.value.Keys <= {"en", "zh"} && At(p.value, "en") == en && At(p.value, "zh") == zh
  {
    assert "en" != "zh";
    var m := Pair(en, zh).value;
    match (en, zh)
    case (Some(e), None) => assert "en" in m && "zh" !in m;
    case (None, Some(z)) => assert "zh" in m && "en" !in m;
    case (Some(e), Some(z)) => assert "en" in m && "zh" in m && m["en"] == e;
  }

  lemma SamePair<T>(m: map<string, T>, n: map<string, T>)
    requires m.Keys <= {"en", "zh"} && n.Keys <= {"en", "zh"}
    requires At(m, "en") == At(n, "en") && At(m, "zh") == At(n, "zh")
    ensures m == n
  {
    assert forall lang :: lang in m ==> lang in n && m[lang] == n[lang];
    assert forall lang :: lang in n ==> lang in m;
  }

  lemma TextComesBack(texts: map<string, string>, lang: string)
    ensures At(texts, lang) == Text1(Localized(Some(texts), lang)) <==> (lang in texts ==> NormalText(texts[lang]))
  {
    TrimIsTrimmed(Localized(Some(texts), lang));
  }

  lemma ListComesBack(lists: map<string, seq<string>>, lang: string)
    ensures At(lists, lang) == List1(Join(LocalizedList(Some(lists), lang))) <==> AcceptedIn(lists, lang)
  {
    var list := LocalizedList(Some(lists), lang);
    var text := Join(list);
    TrimIsTrimmed(text);
    TrimIsTrimmed(Trim(text));
    assert SplitList(Trim(text)) == SplitList(text);
    SplitOfJoin(list);
    if list != [] && NormalList(list) {
      JoinEnds(list);
    }
  }

  lemma TextsComeBack(texts: Option<map<string, string>>)
    ensures ParseTexts(Localized(texts, "en"), Localized(texts, "zh")) == texts
       <==> (texts.Some? ==> NormalTexts(texts.value))
  {
    if texts.Some? {
      var m := texts.value;
      PairIs(Text1(Localized(texts, "en")), Text1(Localized(texts, "zh")), m);
      TextComesBack(m, "en");
      TextComesBack(m, "zh");
      if m != map[] && m.Keys <= {"en", "zh"} {
        NormalTextsByLanguage(m);
      }
    }
  }

  lemma ListsComeBack(lists: Option<map<string, seq<string>>>)
    ensures ParseLists(Join(LocalizedList(lists, "en")), Join(LocalizedList(lists, "zh"))) == lists
       <==> (lists.Some? ==> NormalLists(lists.value))
  {
    if lists.Some? {
      var m := lists.value;
      PairIs(List1(Join(LocalizedList(lists, "en"))), List1(Join(LocalizedList(lists, "zh"))), m);
      ListComesBack(m, "en");
      ListComesBack(m, "zh");
      if m != map[] && m.Keys <= {"en", "zh"} {
        NormalListsByLanguage(m);
      }
    }
  }

  lemma NormalTextsByLanguage(m: map<string, string>)
    requires m != map[] && m.Keys <= {"en", "zh"}
    ensures NormalTexts(m) <==> ("en" in m ==> NormalText(m["en"])) && ("zh" in m ==> NormalText(m["zh"]))
  {
  }

  lemma NormalListsByLanguage(m: map<string, seq<string>>)
    requires m != map[] && m.Keys <= {"en", "zh"}
    ensures NormalLists(m) <==> AcceptedIn(m, "en") && AcceptedIn(m, "zh")
  {
  }

  lemma FlagComesBack(b: bool)
    ensures ParseBool(Flag(b)) == b
  {
    var s := Flag(b);
    TrimIsTrimmed(s);
    assert Lower(s) == s;
  }

  lemma NumberComesBack(i: int)
    requires MIN_INT64 <= i <= MAX_INT64
    ensures ParseInt(Itoa(i)) == i <==> i != MIN_INT64
  {
    AtoiOfItoa(i);
    NumeralTrimmed(Itoa(i));
  }

  lemma NumeralTrimmed(s: string)
    requires s != [] && (IsDigit(s[0]) || s[0] == '-') && (IsDigit(s[|s| - 1]) || s[|s| - 1] == '-')
    ensures Trim(s) == s
  {
    TrimIsTrimmed(s);
  }

  // The numbers, flags and the type; texts and lists stay open.
  lemma PlainFieldsComeBack(b: Body)
    requires MIN_INT64 <= b.min <= MAX_INT64 && MIN_INT64 <= b.max <= MAX_INT64 && MIN_INT64 <= b.step <= MAX_INT64
    ensures ParseBool(Flag(b.required)) == b.required && ParseBool(Flag(b.reverseScored)) == b.reverseScored
    ensures ParseBool(Flag(b.likertShowNumbers)) == b.likertShowNumbers
    ensures (ParseInt(Itoa(b.min)) == b.min && ParseInt(Itoa(b.max)) == b.max && ParseInt(Itoa(b.step)) == b.step)
      <==> MIN_INT64 !in {b.min, b.max, b.step}
    ensures (if Trim(b.itemType) == "" then "likert" else Trim(b.itemType)) == b.itemType <==> NormalText(b.itemType)
  {
    NumbersComeBack(b.min, b.max, b.step);
    TypeComesBack(b.itemType);
    FlagComesBack(b.required);
    FlagComesBack(b.reverseScored);
    FlagComesBack(b.likertShowNumbers);
  }

  lemma NumbersComeBack(min: int, max: int, step: int)
    requires MIN_INT64 <= min <= MAX_INT64 && MIN_INT64 <= max <= MAX_INT64 && MIN_INT64 <= step <= MAX_INT64
    ensures (ParseInt(Itoa(min)) == min && ParseInt(Itoa(max)) == max && ParseInt(Itoa(step)) == step)
      <==> MIN_INT64 !in {min, max, step}
  {
    NumberComesBack(min);
    NumberComesBack(max);
    NumberComesBack(step);
  }

  lemma TypeComesBack(itemType: string)
    ensures (if Trim(itemType) == "" then "likert" else Trim(itemType)) == itemType <==> NormalText(itemType)
  {
    TrimIsTrimmed(itemType);
  }

  lemma BodyComesBack(it: Item)
    requires InRange(it)
    ensures BodyOf(ToCells(it)) == it.body <==> NormalBody(it.body)
  {
    var b := it.body;
    PlainFieldsComeBack(b);
    TextsComeBack(b.stem);
    TextsComeBack(b.placeholder);
    ListsComeBack(b.options);
    ListsComeBack(b.likertLabels);
  }

  // Reading back what was written under the exporter's own header gives the item again, in the scale imported into,
  // exactly when the item is normal.
  lemma ItemComesBack(it: Item, scaleId: string, generated: string)
    requires InRange(it)
    requires generated != "" && Trimmed(generated)
    ensures FromCells(Cells(NAMES, AsRow(ToCells(it))), scaleId, generated) == Ok(it.(scaleId := scaleId)) <==> NormalItem(it)
  {
    CellsOfOwnHeader(ToCells(it));
    ReadBack(it, ToCells(it), scaleId, generated);
  }

  lemma ReadBack(it: Item, c: Columns<string>, scaleId: string, generated: string)
    requires InRange(it) && c == ToCells(it)
    requires generated != "" && Trimmed(generated)
    ensures FromCells(c, scaleId, generated) == Ok(it.(scaleId := scaleId)) <==> NormalItem(it)
  {
    TrimIsTrimmed(it.id);
    NumberComesBack(it.order);
    TextsComeBack(it.body.stem);
    BodyComesBack(it);
    GeneratedDiffers(it.id, generated);
    assert c.itemId == it.id && ParseInt(c.position) == it.order <==> it.order != MIN_INT64;
  }

  lemma GeneratedDiffers(id: string, generated: string)
    requires generated != "" && Trimmed(generated)
    ensures Trim(id) == "" ==> id != generated
  {
    TrimIsTrimmed(generated);
  }
}
