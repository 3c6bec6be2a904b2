// The lists inside one field of the item file: join in internal/services/export.go writes them,
// csvSplitList in internal/services/scale_service.go reads them back.
module CsvLists {
  import opened Text

  // The entries with " | " between them.
  function Join(list: seq<string>): string {
    JoinWith(list, " | ")
  }

  method JoinList(list: seq<string>) returns (out: string)
    ensures out == Join(list)
  {
    out := "";
    for i := 0 to |list|
      invariant out == Join(list[..i])
    {
      assert list[..i + 1][..i] == list[..i];
      if i > 0 {
        out := out + " | ";
      }
      out := out + list[i];
    }
    assert list[..|list|] == list;
  }

  // Bars separate the entries; a field without a bar may use commas.
  function SplitList(field: string): seq<string> {
    var text := Trim(field);
    if text == "" then [] else Cleaned(Split(text, if '|' in text then '|' else ','))
  }

  method CsvSplitList(field: string) returns (out: seq<string>)
    ensures out == SplitList(field)
  {
    var text := Trim(field);
    out := [];
    if text == "" {
      return;
    }
    var parts := Split(text, if '|' in text then '|' else ',');
    for i := 0 to |parts|
      invariant out == Cleaned(parts[..i])
    {
      assert parts[..i + 1][..i] == parts[..i];
      var p := Trim(parts[i]);
      if p != "" {
        out := out + [p];
      }
    }
    assert parts[..|parts|] == parts;
  }

  // An entry no splitting takes apart.
  predicate Entry(x: string) {
    x != "" && Trimmed(x) && '|' !in x
  }

  // A list of one entry is written without a bar, so there a comma splits too.
  predicate NormalList(list: seq<string>) {
    && (forall i :: 0 <= i < |list| ==> Entry(list[i]))
    && (|list| == 1 ==> ',' !in list[0])
  }

  // A list comes back as it was exactly when it is normal.
  lemma SplitOfJoin(list: seq<string>)
    ensures SplitList(Join(list)) == list <==> NormalList(list)
  {
    if NormalList(list) {
      NormalComesBack(list);
    }
    if SplitList(Join(list)) == list {
      SplitIsClean(Join(list));
      if |list| == 1 {
        SplitHasNoComma(list[0]);
      }
    }
  }

  // A list written by hand with commas is read entry by entry, as long as no bar occurs in it.
  lemma CommasSeparate(list: seq<string>)
    requires forall i :: 0 <= i < |list| ==> Entry(list[i]) && ',' !in list[i]
    ensures SplitList(JoinWith(list, ",")) == list
  {
    if list != [] {
      var text := JoinWith(list, ",");
      JoinedByCommas(list);
      CleanedEntries(list);
      SplitTrimmed(text);
    }
  }

  lemma {:induction false} JoinedByCommas(list: seq<string>)
    requires list != []
    requires forall i :: 0 <= i < |list| ==> Entry(list[i]) && ',' !in list[i]
    ensures var text := JoinWith(list, ","); text != "" && Trimmed(text) && '|' !in text && Split(text, ',') == list
  {
    var n := |list| - 1;
    assert list == list[..n] + [list[n]];
    SplitOnce(list[n], ',');
    if n > 0 {
      JoinedByCommas(list[..n]);
      var front := JoinWith(list[..n], ",");
      assert JoinWith(list, ",") == front + [','] + list[n];
      SplitAt(front, ',', list[n]);
    }
  }

  lemma {:induction false} CleanedEntries(list: seq<string>)
    requires forall i :: 0 <= i < |list| ==> Entry(list[i])
    ensures Cleaned(list) == list
  {
    if list != [] {
      var n := |list| - 1;
      CleanedEntries(list[..n]);
      TrimIsTrimmed(list[n]);
      assert list == list[..n] + [list[n]];
    }
  }

  lemma SplitIsClean(field: string)
    ensures forall i :: 0 <= i < |SplitList(field)| ==> Entry(SplitList(field)[i])
  {
    var text := Trim(field);
    if text != "" {
      var sep := if '|' in text then '|' else ',';
      if sep == ',' {
        SplitWithin(text, sep, '|');
      }
      CleanedWithin(Split(text, sep), '|');
    }
  }

  lemma SplitHasNoComma(x: string)
    requires SplitList(x) == [x]
    ensures ',' !in x
  {
    SplitIsClean(x);
    assert [x][0] == x;
    TrimIsTrimmed(x);
    assert Trim(x) == x && x != "" && '|' !in x;
    CleanedWithin(Split(x, ','), ',');
    assert SplitList(x)[0] == x;
  }

  lemma NormalComesBack(list: seq<string>)
    requires NormalList(list)
    ensures SplitList(Join(list)) == list
  {
    if |list| == 1 {
      OneEntry(list[0]);
      assert list == [list[0]];
    } else if |list| > 1 {
      ManyComeBack(list);
    }
  }

  lemma ManyComeBack(list: seq<string>)
    requires |list| > 1
    requires forall i :: 0 <= i < |list| ==> Entry(list[i])
    ensures SplitList(Join(list)) == list
  {
    var text := Join(list);
    assert text + "" == text;
    JoinEnds(list);
    SplitAtBars(list, "");
    SplitTrimmed(text);
  }

  lemma SplitTrimmed(text: string)
    requires text != "" && Trimmed(text)
    ensures SplitList(text) == Cleaned(Split(text, if '|' in text then '|' else ','))
  {
    TrimIsTrimmed(text);
  }

  lemma OneEntry(x: string)
    requires Entry(x) && ',' !in x
    ensures SplitList(x) == [x]
  {
    SplitTrimmed(x);
    SplitOnce(x, ',');
    TrimIsTrimmed(x);
    CleanedOne(x);
  }

  lemma {:induction false} JoinEnds(list: seq<string>)
    requires list != []
    requires forall i :: 0 <= i < |list| ==> Entry(list[i])
    ensures Join(list) != "" && Trimmed(Join(list))
    ensures |list| > 1 ==> '|' in Join(list)
  {
    if |list| > 1 {
      var n := |list| - 1;
      JoinEnds(list[..n]);
      var text := Join(list[..n]) + " | " + list[n];
      assert text[0] == Join(list[..n])[0];
      assert text[|text| - 1] == list[n][|list[n]| - 1];
      assert text[|Join(list[..n])| + 1] == '|';
    }
  }

  // A blank may follow: the one in front of the next bar.
  lemma {:induction false} SplitAtBars(list: seq<string>, right: string)
    requires list != [] && (right == "" || right == " ")
    requires forall i :: 0 <= i < |list| ==> Entry(list[i])
    ensures Cleaned(Split(Join(list) + right, '|')) == list
  {
    var n := |list| - 1;
    assert list == list[..n] + [list[n]];
    if n == 0 {
      FirstEntry(list[0], right);
    } else {
      SplitAtBars(list[..n], " ");
      assert Join(list) + right == Join(list[..n]) + " | " + list[n] + right;
      LastEntry(Join(list[..n]), list[n], right);
    }
  }

  lemma FirstEntry(x: string, right: string)
    requires Entry(x) && (right == "" || right == " ")
    ensures Cleaned(Split(x + right, '|')) == [x]
  {
    LastPart(x, "", right);
    assert x + right == "" + x + right;
    SplitOnce(x + right, '|');
  }

  lemma SplitOnce(s: string, sep: char)
    requires sep !in s
    ensures Split(s, sep) == [s]
  {
  }

  lemma LastPart(x: string, left: string, right: string)
    requires Entry(x) && (left == "" || left == " ") && (right == "" || right == " ")
    ensures '|' !in left + x + right
    ensures Cleaned([left + x + right]) == [x]
  {
    TrimPadded(x, left, right);
    CleanedOne(left + x + right);
  }

  lemma LastEntry(front: string, x: string, right: string)
    requires Entry(x) && (right == "" || right == " ")
    ensures Cleaned(Split(front + " | " + x + right, '|')) == Cleaned(Split(front + " ", '|')) + [x]
  {
    var last := " " + x + right;
    LastPart(x, " ", right);
    assert front + " | " + x + right == (front + " ") + ['|'] + last;
    SplitAt(front + " ", '|', last);
    SplitOnce(last, '|');
    CleanedAppend(Split(front + " ", '|'), [last]);
  }
}
