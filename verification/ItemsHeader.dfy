// The columns of the item file: the header line internal/services/export.go writes, and the header lookup of
// internal/services/scale_service.go, which ignores case, order and surrounding blanks.
module ItemsHeader {
  import opened Text

  // One value per column.
  datatype Columns<T> = Columns(
    itemId: T, position: T, itemType: T, required: T, reverseScored: T, min: T, max: T, step: T,
    stemEn: T, stemZh: T, optionsEn: T, optionsZh: T, placeholderEn: T, placeholderZh: T,
    likertLabelsEn: T, likertLabelsZh: T, likertShowNumbers: T)

  const NAMES: seq<string> := [
    "item_id", "position", "type", "required", "reverse_scored", "min", "max", "step",
    "stem_en", "stem_zh", "options_en", "options_zh", "placeholder_en", "placeholder_zh",
    "likert_labels_en", "likert_labels_zh", "likert_show_numbers"]

  function AsRow<T>(c: Columns<T>): (r: seq<T>)
    ensures |r| == 17
  {
    [c.itemId, c.position, c.itemType, c.required, c.reverseScored, c.min, c.max, c.step,
     c.stemEn, c.stemZh, c.optionsEn, c.optionsZh, c.placeholderEn, c.placeholderZh,
     c.likertLabelsEn, c.likertLabelsZh, c.likertShowNumbers]
  }

  function OfRow<T>(r: seq<T>): (c: Columns<T>)
    requires |r| == 17
    ensures AsRow(c) == r
  {
    Columns(r[0], r[1], r[2], r[3], r[4], r[5], r[6], r[7], r[8], r[9], r[10], r[11], r[12], r[13], r[14], r[15], r[16])
  }

  lemma OfRowOfAsRow<T>(c: Columns<T>)
    ensures OfRow(AsRow(c)) == c
  {
  }

  predicate Names(cell: string, name: string) {
    Fold(Trim(cell)) == Fold(name)
  }

  // The first column of that name, or -1.
  function IndexOf(header: seq<string>, name: string): (r: int)
    ensures -1 <= r < |header|
    ensures r >= 0 ==> Names(header[r], name)
    ensures forall i :: 0 <= i < |header| && (r < 0 || i < r) ==> !Names(header[i], name)
  {
    if header == [] then -1
    else if Names(header[0], name) then 0
    else
      var r := IndexOf(header[1..], name);
      if r < 0 then -1 else r + 1
  }

  method IndexOfInsensitive(header: seq<string>, name: string) returns (r: int)
    ensures r == IndexOf(header, name)
  {
    for i := 0 to |header|
      invariant forall j :: 0 <= j < i ==> !Names(header[j], name)
    {
      if Names(header[i], name) {
        return i;
      }
    }
    return -1;
  }

  function HeaderIndex(header: seq<string>): Columns<int> {
    OfRow(seq(17, i requires 0 <= i < 17 => IndexOf(header, NAMES[i])))
  }

  function GetCell(row: seq<string>, i: int): string {
    if 0 <= i < |row| then row[i] else ""
  }

  function PickCells(row: seq<string>, h: Columns<int>): Columns<string> {
    Columns(
      GetCell(row, h.itemId), GetCell(row, h.position), GetCell(row, h.itemType), GetCell(row, h.required),
      GetCell(row, h.reverseScored), GetCell(row, h.min), GetCell(row, h.max), GetCell(row, h.step),
      GetCell(row, h.stemEn), GetCell(row, h.stemZh), GetCell(row, h.optionsEn), GetCell(row, h.optionsZh),
      GetCell(row, h.placeholderEn), GetCell(row, h.placeholderZh),
      GetCell(row, h.likertLabelsEn), GetCell(row, h.likertLabelsZh), GetCell(row, h.likertShowNumbers))
  }

  // What a row holds in each column, "" where the header or the row has no such column.
  function Cells(header: seq<string>, row: seq<string>): Columns<string> {
    PickCells(row, HeaderIndex(header))
  }

  lemma PickedAt(row: seq<string>, h: Columns<int>, i: nat)
    requires i < 17
    ensures AsRow(PickCells(row, h))[i] == GetCell(row, AsRow(h)[i])
  {
  }

  lemma CellAt(header: seq<string>, row: seq<string>, i: nat)
    requires i < 17
    ensures AsRow(Cells(header, row))[i] == GetCell(row, IndexOf(header, NAMES[i]))
  {
    PickedAt(row, HeaderIndex(header), i);
  }

  lemma SameColumnsOf<T>(c: Columns<T>, d: Columns<T>)
    requires forall i :: 0 <= i < 17 ==> AsRow(c)[i] == AsRow(d)[i]
    ensures c == d
  {
    assert AsRow(c) == AsRow(d);
    OfRowOfAsRow(c);
    OfRowOfAsRow(d);
  }

  // A lower-case name.
  predicate Plain(s: string) {
    s != "" && forall i :: 0 <= i < |s| ==> 'a' <= s[i] <= 'z' || s[i] == '_'
  }

  lemma PlainFolds(s: string)
    requires Plain(s)
    ensures Trim(s) == s && Fold(s) == s
  {
    TrimIsTrimmed(s);
    assert !IsSpace(s[0]) && !IsSpace(s[|s| - 1]);
    assert forall i :: 0 <= i < |s| ==> FoldChar(s[i]) == s[i];
  }

  lemma NamesPlain(i: nat)
    requires i < 17
    ensures Plain(NAMES[i])
  {
  }

  function Mark(s: string): int
    requires s != ""
  {
    1000 * |s| + s[|s| - 1] as int
  }

  // No two of the 17 names have the same length and the same last letter.
  lemma NamesDiffer(i: nat, j: nat)
    requires i < 17 && j < 17 && NAMES[i] == NAMES[j]
    ensures i == j
  {
    var marks := [7100, 8110, 4101, 8100, 14100, 3110, 3120, 4112, 7110, 7104, 10110, 10104, 14110, 14104, 16110, 16104, 19115];
    assert NAMES[i] != "" && Mark(NAMES[i]) == marks[i];
    assert NAMES[j] != "" && Mark(NAMES[j]) == marks[j];
  }

  lemma OwnColumn(i: nat)
    requires i < 17
    ensures IndexOf(NAMES, NAMES[i]) == i
  {
    NamesPlain(i);
    PlainFolds(NAMES[i]);
    assert Names(NAMES[i], NAMES[i]);
    var r := IndexOf(NAMES, NAMES[i]);
    NamesPlain(r);
    PlainFolds(NAMES[r]);
    NamesDiffer(r, i);
  }

  // Under the header the exporter writes, a row of 17 cells is read column by column.
  lemma CellsOfOwnHeader(c: Columns<string>)
    ensures Cells(NAMES, AsRow(c)) == c
  {
    forall i | 0 <= i < 17 ensures AsRow(Cells(NAMES, AsRow(c)))[i] == AsRow(c)[i] {
      CellAt(NAMES, AsRow(c), i);
      OwnColumn(i);
    }
    SameColumnsOf(Cells(NAMES, AsRow(c)), c);
  }

  // The columns of a file moved around: column i of the new file is column at[i] of the other one, under a name that
  // may be padded or written in other case. No column is lost and no name stands twice.
  // What a row holds in the first column called name, up to case and blanks; "" if there is none.
  function Under(header: seq<string>, row: seq<string>, name: string): string {
    GetCell(row, IndexOf(header, name))
  }

  lemma UnderOwnName(c: Columns<string>, i: nat)
    requires i < 17
    ensures Under(NAMES, AsRow(c), NAMES[i]) == AsRow(c)[i]
  {
    OwnColumn(i);
  }

  // Cell by cell, which column is read for which field.
  lemma ReadUnderNames(header: seq<string>, row: seq<string>)
    ensures
      var c := Cells(header, row);
      && c.itemId == Under(header, row, "item_id") && c.position == Under(header, row, "position")
      && c.itemType == Under(header, row, "type") && c.required == Under(header, row, "required")
      && c.reverseScored == Under(header, row, "reverse_scored")
      && c.min == Under(header, row, "min") && c.max == Under(header, row, "max") && c.step == Under(header, row, "step")
      && c.stemEn == Under(header, row, "stem_en") && c.stemZh == Under(header, row, "stem_zh")
      && c.optionsEn == Under(header, row, "options_en") && c.optionsZh == Under(header, row, "options_zh")
      && c.placeholderEn == Under(header, row, "placeholder_en") && c.placeholderZh == Under(header, row, "placeholder_zh")
      && c.likertLabelsEn == Under(header, row, "likert_labels_en") && c.likertLabelsZh == Under(header, row, "likert_labels_zh")
      && c.likertShowNumbers == Under(header, row, "likert_show_numbers")
  {
  }

  predicate SameColumns(header: seq<string>, moved: seq<string>, at: seq<nat>) {
    && |at| == |moved| == |header|
    && (forall i :: 0 <= i < |at| ==> at[i] < |header| && Fold(Trim(moved[i])) == Fold(Trim(header[at[i]])))
    && (forall k :: 0 <= k < |header| ==> k in at)
    && (forall i, j :: 0 <= i < j < |header| ==> Fold(Trim(header[i])) != Fold(Trim(header[j])))
  }

  predicate SameCells(row: seq<string>, moved: seq<string>, at: seq<nat>) {
    && |at| == |moved| == |row|
    && (forall i :: 0 <= i < |at| ==> at[i] < |row| && moved[i] == row[at[i]])
  }

  // What is read from a row does not depend on the order, case or padding of the columns.
  lemma CellsIgnoreLayout(header: seq<string>, row: seq<string>, movedHeader: seq<string>, movedRow: seq<string>, at: seq<nat>)
    requires |row| == |header|
    requires SameColumns(header, movedHeader, at) && SameCells(row, movedRow, at)
    ensures Cells(movedHeader, movedRow) == Cells(header, row)
  {
    var c, moved := Cells(header, row), Cells(movedHeader, movedRow);
    forall i | 0 <= i < 17 ensures AsRow(moved)[i] == AsRow(c)[i] {
      CellAt(header, row, i);
      CellAt(movedHeader, movedRow, i);
      SameCell(header, row, movedHeader, movedRow, at, NAMES[i]);
    }
    SameColumnsOf(moved, c);
  }

  lemma SameCell(
    header: seq<string>, row: seq<string>, movedHeader: seq<string>, movedRow: seq<string>, at: seq<nat>, name: string)
    requires |row| == |header|
    requires SameColumns(header, movedHeader, at) && SameCells(row, movedRow, at)
    ensures GetCell(movedRow, IndexOf(movedHeader, name)) == GetCell(row, IndexOf(header, name))
  {
    SameColumn(header, movedHeader, at, name);
  }

  lemma SameColumn(header: seq<string>, moved: seq<string>, at: seq<nat>, name: string)
    requires SameColumns(header, moved, at)
    ensures var i, k := IndexOf(moved, name), IndexOf(header, name);
            if i < 0 then k < 0 else k == at[i]
  {
    var i, k := IndexOf(moved, name), IndexOf(header, name);
    if k >= 0 {
      assert k in at;
      var j :| 0 <= j < |at| && at[j] == k;
      assert Names(moved[j], name);
    }
    if i >= 0 {
      assert Names(header[at[i]], name);
    }
  }
}
