// The wide and score exports of internal/services/export_service.go and internal/services/export.go.
module WideTable {
  import opened Survey
  import opened Listing
  import opened Reordering
  import opened Headers

  type Row = map<string, int>
  type Table = map<string, Row>

  function RowOf(mp: Table, pid: string): Row {
    if pid in mp then mp[pid] else map[]
  }

  // One row per participant, one cell per item answered; a later answer to the same item overwrites.
  function Wide(rs: seq<Response>): Table {
    if rs == [] then map[]
    else
      var n := |rs| - 1;
      var before := Wide(rs[..n]);
      before[rs[n].participantId := RowOf(before, rs[n].participantId)[rs[n].itemId := rs[n].scoreValue]]
  }

  method BuildWideMap(rs: seq<Response>) returns (mp: Table)
    ensures mp == Wide(rs)
  {
    mp := map[];
    for i := 0 to |rs|
      invariant mp == Wide(rs[..i])
    {
      var r := rs[i];
      assert rs[..i + 1][..i] == rs[..i];
      if r.participantId !in mp {
        mp := mp[r.participantId := map[]];
      }
      mp := mp[r.participantId := mp[r.participantId][r.itemId := r.scoreValue]];
    }
    assert rs[..|rs|] == rs;
  }

  // A cell exists exactly for an answered item, and holds the score of the last answer.
  predicate LastAnswer(rs: seq<Response>, i: nat, pid: string, itemId: string) {
    && i < |rs| && rs[i].participantId == pid && rs[i].itemId == itemId
    && (forall j :: i < j < |rs| ==> !(rs[j].participantId == pid && rs[j].itemId == itemId))
  }

  lemma {:induction false} WideCells(rs: seq<Response>, pid: string, itemId: string)
    ensures pid in Wide(rs) <==> exists i :: 0 <= i < |rs| && rs[i].participantId == pid
    ensures itemId in RowOf(Wide(rs), pid) <==> exists i: nat :: LastAnswer(rs, i, pid, itemId)
    ensures forall i: nat :: LastAnswer(rs, i, pid, itemId) ==> itemId in RowOf(Wide(rs), pid) && RowOf(Wide(rs), pid)[itemId] == rs[i].scoreValue
  {
    if rs != [] {
      var n := |rs| - 1;
      WideCells(rs[..n], pid, itemId);
      LastAnswerStep(rs, pid, itemId);
      if rs[n].participantId != pid {
        assert forall i :: 0 <= i < n ==> rs[..n][i] == rs[i];
      }
    }
  }

  lemma LastAnswerStep(rs: seq<Response>, pid: string, itemId: string)
    requires rs != []
    ensures var n := |rs| - 1;
            if rs[n].participantId == pid && rs[n].itemId == itemId
            then forall i: nat :: LastAnswer(rs, i, pid, itemId) <==> i == n
            else forall i: nat :: LastAnswer(rs, i, pid, itemId) <==> LastAnswer(rs[..n], i, pid, itemId)
    ensures var n := |rs| - 1;
            (exists i: nat :: LastAnswer(rs, i, pid, itemId))
            <==> (rs[n].participantId == pid && rs[n].itemId == itemId) || exists i: nat :: LastAnswer(rs[..n], i, pid, itemId)
  {
    var n := |rs| - 1;
    if rs[n].participantId == pid && rs[n].itemId == itemId {
      assert LastAnswer(rs, n, pid, itemId);
    }
  }

  // ----- sums over a row -----

  function SumOver(row: Row, keys: set<string>): int
    requires keys <= row.Keys
    decreases |keys|
  {
    if keys == {} then 0
    else
      LeastStringExists(keys);
      var k :| IsLeastString(keys, k);
      row[k] + SumOver(row, keys - {k})
  }

  function RowSum(row: Row): int {
    SumOver(row, row.Keys)
  }

  predicate IsLeastString(keys: set<string>, k: string) {
    k in keys && forall x :: x in keys && x != k ==> StringLess(k, x)
  }

  lemma {:induction false} LeastStringExists(keys: set<string>)
    requires keys != {}
    ensures exists k :: IsLeastString(keys, k)
    ensures forall j, k :: IsLeastString(keys, j) && IsLeastString(keys, k) ==> j == k
    decreases |keys|
  {
    forall j, k | IsLeastString(keys, j) && IsLeastString(keys, k) ensures j == k {
      StringLessTotal(j, k);
    }
    var a :| a in keys;
    var others := keys - {a};
    if others == {} {
      forall x | x in keys ensures x == a {
        assert x in others || x == a;
      }
      assert IsLeastString(keys, a);
    } else {
      LeastStringExists(others);
      var b :| IsLeastString(others, b);
      StringLessTotal(a, b);
      if StringLess(a, b) {
        forall x | x in keys && x != a ensures StringLess(a, x) {
          if x != b {
            StringLessTransitive(a, b, x);
          }
        }
        assert IsLeastString(keys, a);
      } else {
        assert IsLeastString(keys, b);
      }
    }
  }

  // Any cell may be taken out first.
  lemma {:induction false} SumWithout(row: Row, keys: set<string>, k: string)
    requires keys <= row.Keys && k in keys
    ensures SumOver(row, keys) == row[k] + SumOver(row, keys - {k})
    decreases |keys|
  {
    LeastStringExists(keys);
    var least :| IsLeastString(keys, least);
    if k != least {
      SumWithout(row, keys - {least}, k);
      SumWithout(row, keys - {k}, least);
      assert keys - {least} - {k} == keys - {k} - {least};
    }
  }

  lemma {:induction false} SumSame(row: Row, row': Row, keys: set<string>)
    requires keys <= row.Keys && keys <= row'.Keys
    requires forall k :: k in keys ==> row[k] == row'[k]
    ensures SumOver(row, keys) == SumOver(row', keys)
    decreases |keys|
  {
    if keys != {} {
      LeastStringExists(keys);
      var k :| IsLeastString(keys, k);
      SumSame(row, row', keys - {k});
    }
  }

  // Writing one cell.
  lemma RowSumAfterWrite(row: Row, k: string, v: int)
    ensures RowSum(row[k := v]) == RowSum(row) + v - (if k in row then row[k] else 0)
  {
    var after := row[k := v];
    SumWithout(after, after.Keys, k);
    assert after.Keys - {k} == row.Keys - {k};
    SumSame(row, after, row.Keys - {k});
    if k in row {
      SumWithout(row, row.Keys, k);
    } else {
      assert row.Keys - {k} == row.Keys;
    }
  }

  // ----- the score export -----

  function ScoresOf(rs: seq<Response>, pid: string): seq<int> {
    if rs == [] then []
    else
      var n := |rs| - 1;
      if rs[n].participantId == pid then ScoresOf(rs[..n], pid) + [rs[n].scoreValue] else ScoresOf(rs[..n], pid)
  }

  method BuildTotals(rs: seq<Response>) returns (totals: map<string, seq<int>>)
    ensures totals.Keys == Wide(rs).Keys
    ensures forall pid :: pid in totals ==> totals[pid] == ScoresOf(rs, pid)
  {
    totals := map[];
    for i := 0 to |rs|
      invariant totals.Keys == Wide(rs[..i]).Keys
      invariant forall pid :: (pid in totals ==> totals[pid] == ScoresOf(rs[..i], pid)) && (pid !in totals ==> ScoresOf(rs[..i], pid) == [])
    {
      var r := rs[i];
      assert rs[..i + 1][..i] == rs[..i];
      totals := totals[r.participantId := (if r.participantId in totals then totals[r.participantId] else []) + [r.scoreValue]];
    }
    assert rs[..|rs|] == rs;
  }

  function SumInts(values: seq<int>): int {
    if values == [] then 0 else SumInts(values[..|values| - 1]) + values[|values| - 1]
  }

  datatype ScoreRow = ScoreRow(pid: string, total: int)

  predicate StrictlyAscending(keys: seq<string>) {
    forall i, j :: 0 <= i < j < |keys| ==> StringLess(keys[i], keys[j])
  }

  // sort.Strings over the keys of a map
  method SortedKeys(keys: set<string>) returns (sorted: seq<string>)
    ensures forall k :: k in sorted <==> k in keys
    ensures StrictlyAscending(sorted) && NoDuplicates(sorted)
  {
    sorted := [];
    var left := keys;
    while left != {}
      invariant left <= keys
      invariant forall k :: k in sorted <==> k in keys - left
      invariant StrictlyAscending(sorted)
      invariant forall x, y :: x in sorted && y in left ==> StringLess(x, y)
      decreases |left|
    {
      LeastStringExists(left);
      var k :| k in left && forall x :: x in left && x != k ==> StringLess(k, x) by {
        var l :| IsLeastString(left, l);
      }
      left := left - {k};
      forall i | 0 <= i < |sorted| ensures StringLess(sorted[i], k) {
        assert sorted[i] in sorted;
      }
      sorted := sorted + [k];
    }
    forall i, j | 0 <= i < j < |sorted| ensures sorted[i] != sorted[j] {
      StringLessTotal(sorted[i], sorted[j]);
    }
  }

  // ExportScoreCSV: participants in order of id, each once, with the sum of their scores.
  method ExportScore(totals: map<string, seq<int>>) returns (rows: seq<ScoreRow>)
    ensures forall pid :: pid in totals <==> exists i :: 0 <= i < |rows| && rows[i].pid == pid
    ensures forall i :: 0 <= i < |rows| ==> rows[i].pid in totals && rows[i].total == SumInts(totals[rows[i].pid])
    ensures forall i, j :: 0 <= i < j < |rows| ==> StringLess(rows[i].pid, rows[j].pid)
  {
    var pids := SortedKeys(totals.Keys);
    rows := [];
    for p := 0 to |pids|
      invariant |rows| == p
      invariant forall i :: 0 <= i < p ==> rows[i] == ScoreRow(pids[i], SumInts(totals[pids[i]]))
    {
      var sum := 0;
      assert pids[p] in pids;
      var values := totals[pids[p]];
      for i := 0 to |values|
        invariant sum == SumInts(values[..i])
      {
        assert values[..i + 1][..i] == values[..i];
        sum := sum + values[i];
      }
      assert values[..|values|] == values;
      rows := rows + [ScoreRow(pids[p], sum)];
    }
    forall pid | pid in totals ensures exists i :: 0 <= i < |rows| && rows[i].pid == pid {
      assert pid in pids;
      var i :| 0 <= i < |pids| && pids[i] == pid;
      assert rows[i].pid == pid;
    }
    forall i | 0 <= i < |rows| ensures rows[i].pid in totals {
      assert pids[i] in pids;
    }
  }

  // ----- conservation between the two exports -----

  // The scores a participant's later answers to the same items wrote over.
  function Overwritten(rs: seq<Response>, pid: string): int {
    if rs == [] then 0
    else
      var n := |rs| - 1;
      var row := RowOf(Wide(rs[..n]), pid);
      Overwritten(rs[..n], pid) + if rs[n].participantId == pid && rs[n].itemId in row then row[rs[n].itemId] else 0
  }

  predicate AnswersOnce(rs: seq<Response>, pid: string) {
    forall i, j :: 0 <= i < j < |rs| && rs[i].participantId == pid && rs[j].participantId == pid ==> rs[i].itemId != rs[j].itemId
  }

  // The score export counts every answer, the wide export the last one per item: they differ by what was overwritten.
  lemma {:induction false} ScoreMinusWide(rs: seq<Response>, pid: string)
    ensures SumInts(ScoresOf(rs, pid)) == RowSum(RowOf(Wide(rs), pid)) + Overwritten(rs, pid)
  {
    if rs != [] {
      var n := |rs| - 1;
      var row := RowOf(Wide(rs[..n]), pid);
      ScoreMinusWide(rs[..n], pid);
      if rs[n].participantId == pid {
        RowSumAfterWrite(row, rs[n].itemId, rs[n].scoreValue);
        var before := ScoresOf(rs[..n], pid);
        assert (before + [rs[n].scoreValue])[..|before|] == before;
      }
    }
  }

  lemma {:induction false} NothingOverwritten(rs: seq<Response>, pid: string)
    requires AnswersOnce(rs, pid)
    ensures Overwritten(rs, pid) == 0
  {
    if rs != [] {
      var n := |rs| - 1;
      forall i, j | 0 <= i < j < n && rs[..n][i].participantId == pid && rs[..n][j].participantId == pid
        ensures rs[..n][i].itemId != rs[..n][j].itemId
      {
        assert rs[i].itemId != rs[j].itemId;
      }
      NothingOverwritten(rs[..n], pid);
      WideCells(rs[..n], pid, rs[n].itemId);
    }
  }

  // Each item answered once: a participant's total is the sum of that participant's cells.
  lemma ScoreEqualsWide(rs: seq<Response>, pid: string)
    requires AnswersOnce(rs, pid)
    ensures SumInts(ScoresOf(rs, pid)) == RowSum(RowOf(Wide(rs), pid))
  {
    ScoreMinusWide(rs, pid);
    NothingOverwritten(rs, pid);
  }

  // ----- renaming the columns -----

  function NewName(unique: map<string, string>, key: string): string {
    if key in unique then unique[key] else key
  }

  predicate KeepsApart(row: Row, unique: map<string, string>) {
    forall k, l :: k in row && l in row && k != l ==> NewName(unique, k) != NewName(unique, l)
  }

  // The renamed row as the loop leaves it: if two columns get one name, which of the two cells survives depends on the
  // order the map is walked in.
  ghost predicate IsRenamed(row: Row, unique: map<string, string>, renamed: Row) {
    && (forall k :: k in row ==> NewName(unique, k) in renamed)
    && (forall h :: h in renamed ==> exists k :: k in row && NewName(unique, k) == h && renamed[h] == row[k])
  }

  method RenameRow(row: Row, unique: map<string, string>) returns (renamed: Row)
    ensures IsRenamed(row, unique, renamed)
  {
    renamed := map[];
    var left := row.Keys;
    while left != {}
      invariant left <= row.Keys
      invariant forall k :: k in row && k !in left ==> NewName(unique, k) in renamed
      invariant forall h :: h in renamed ==> exists k :: k in row && NewName(unique, k) == h && renamed[h] == row[k]
      decreases |left|
    {
      var key :| key in left;
      left := left - {key};
      renamed := renamed[NewName(unique, key) := row[key]];
    }
  }

  method ApplyItemHeaders(mp: Table, items: seq<Item>, lang: string) returns (renamed: Table)
    requires NoDuplicates(ItemIds(items))
    ensures renamed.Keys == mp.Keys
    ensures forall pid :: pid in mp ==> IsRenamed(mp[pid], ItemHeaders(items, lang), renamed[pid])
  {
    var unique := UniqueNames(ItemIds(items), Bases(items, lang));
    ItemHeadersAre(items, lang, unique);
    renamed := map[];
    var left := mp.Keys;
    while left != {}
      invariant left <= mp.Keys && renamed.Keys == mp.Keys - left
      invariant forall pid :: pid in renamed ==> IsRenamed(mp[pid], unique, renamed[pid])
      decreases |left|
    {
      var pid :| pid in left;
      left := left - {pid};
      var row := RenameRow(mp[pid], unique);
      renamed := renamed[pid := row];
    }
  }

  // item id to header
  function ItemHeaders(items: seq<Item>, lang: string): (r: map<string, string>)
    ensures forall id :: id in r <==> id in ItemIds(items)
    ensures forall id :: id in r ==> r[id] == Header(Bases(items, lang), FirstIndex(ItemIds(items), id))
  {
    map id | id in ItemIds(items) :: Header(Bases(items, lang), FirstIndex(ItemIds(items), id))
  }

  lemma ItemHeadersAre(items: seq<Item>, lang: string, unique: map<string, string>)
    requires NoDuplicates(ItemIds(items))
    requires forall id :: id in unique <==> id in ItemIds(items)
    requires forall i :: 0 <= i < |items| ==> unique[items[i].id] == Header(Bases(items, lang), i)
    ensures unique == ItemHeaders(items, lang)
  {
    forall id | id in unique ensures unique[id] == ItemHeaders(items, lang)[id] {
      var i := FirstIndex(ItemIds(items), id);
      assert items[i].id == id;
    }
  }

  // Renaming keeps every cell exactly when no two columns of the row get one name.
  lemma RenamingLosesNothing(row: Row, unique: map<string, string>, renamed: Row)
    requires IsRenamed(row, unique, renamed)
    ensures |renamed| == |row| <==> KeepsApart(row, unique)
    ensures KeepsApart(row, unique) ==> forall k :: k in row ==> renamed[NewName(unique, k)] == row[k]
    ensures KeepsApart(row, unique) ==> RowSum(renamed) == RowSum(row)
  {
    assert renamed.Keys == Renames(unique, row.Keys);
    ImageCount(row, unique, row.Keys);
    if KeepsApart(row, unique) {
      forall k | k in row ensures renamed[NewName(unique, k)] == row[k] {
        var h := NewName(unique, k);
        var l :| l in row && NewName(unique, l) == h && renamed[h] == row[l];
      }
      RenamedSum(row, unique, renamed, row.Keys);
    }
  }

  // Where no two columns share a name, every cell of an item stands under the item's name, and every other one where it was.
  lemma RenamedCell(row: Row, unique: map<string, string>, renamed: Row, k: string)
    requires IsRenamed(row, unique, renamed) && KeepsApart(row, unique) && k in row
    ensures k in unique ==> unique[k] in renamed && renamed[unique[k]] == row[k]
    ensures k !in unique ==> k in renamed && renamed[k] == row[k]
  {
    assert NewName(unique, k) in renamed;
  }

  function Renames(unique: map<string, string>, keys: set<string>): set<string> {
    set k | k in keys :: NewName(unique, k)
  }

  lemma {:induction false} ImageCount(row: Row, unique: map<string, string>, keys: set<string>)
    requires keys <= row.Keys
    ensures |Renames(unique, keys)| <= |keys|
    ensures |Renames(unique, keys)| == |keys|
      <==> (forall k, l :: k in keys && l in keys && k != l ==> NewName(unique, k) != NewName(unique, l))
    decreases |keys|
  {
    if keys != {} {
      var k :| k in keys;
      var fewer := keys - {k};
      ImageCount(row, unique, fewer);
      OneName(unique, keys, k);
    }
  }

  lemma OneName(unique: map<string, string>, keys: set<string>, k: string)
    requires k in keys
    ensures var fewer := Renames(unique, keys - {k});
            && Renames(unique, keys) == fewer + {NewName(unique, k)}
            && |Renames(unique, keys)| == |fewer| + (if NewName(unique, k) in fewer then 0 else 1)
            && (NewName(unique, k) in fewer <==> exists l :: l in keys - {k} && NewName(unique, l) == NewName(unique, k))
  {
    assert Renames(unique, keys) == Renames(unique, keys - {k}) + {NewName(unique, k)};
  }

  lemma {:induction false} RenamedSum(row: Row, unique: map<string, string>, renamed: Row, keys: set<string>)
    requires keys <= row.Keys
    requires forall k :: k in row ==> NewName(unique, k) in renamed && renamed[NewName(unique, k)] == row[k]
    requires KeepsApart(row, unique)
    ensures SumOver(renamed, Renames(unique, keys)) == SumOver(row, keys)
    decreases |keys|
  {
    if keys != {} {
      LeastStringExists(keys);
      var k :| IsLeastString(keys, k);
      RenamedSum(row, unique, renamed, keys - {k});
      NamesWithout(row, unique, keys, k);
      SumWithout(renamed, Renames(unique, keys), NewName(unique, k));
    }
  }

  lemma NamesWithout(row: Row, unique: map<string, string>, keys: set<string>, k: string)
    requires KeepsApart(row, unique) && keys <= row.Keys && k in keys
    ensures Renames(unique, keys) - {NewName(unique, k)} == Renames(unique, keys - {k})
    ensures NewName(unique, k) in Renames(unique, keys)
  {
  }

  // The chain of the wide export: with unambiguous stems and every cell an item of the list, the renamed row has the
  // participant's cells under distinct headers, and sums to the participant's total of the score export.
  lemma RenamedScoreEqualsWide(rs: seq<Response>, pid: string, items: seq<Item>, lang: string, renamed: Row)
    requires AnswersOnce(rs, pid) && NoDuplicates(ItemIds(items))
    requires forall i :: 0 <= i < |rs| ==> rs[i].itemId in ItemIds(items)
    requires !Ambiguous(Bases(items, lang))
    requires IsRenamed(RowOf(Wide(rs), pid), ItemHeaders(items, lang), renamed)
    ensures |renamed| == |RowOf(Wide(rs), pid)|
    ensures RowSum(renamed) == SumInts(ScoresOf(rs, pid))
  {
    var row, unique := RowOf(Wide(rs), pid), ItemHeaders(items, lang);
    forall k | k in row ensures k in unique {
      WideCells(rs, pid, k);
      var i: nat :| LastAnswer(rs, i, pid, k);
      assert rs[i].itemId == k;
    }
    HeadersKeepApart(row, items, lang);
    RenamingLosesNothing(row, unique, renamed);
    ScoreEqualsWide(rs, pid);
  }

  lemma HeadersKeepApart(row: Row, items: seq<Item>, lang: string)
    requires forall k :: k in row ==> k in ItemIds(items)
    requires !Ambiguous(Bases(items, lang))
    ensures KeepsApart(row, ItemHeaders(items, lang))
  {
    forall k, l | k in row && l in row && k != l
      ensures NewName(ItemHeaders(items, lang), k) != NewName(ItemHeaders(items, lang), l)
    {
      HeadersDiffer(items, lang, k, l);
    }
  }

  lemma HeadersDiffer(items: seq<Item>, lang: string, k: string, l: string)
    requires k in ItemIds(items) && l in ItemIds(items) && k != l
    requires !Ambiguous(Bases(items, lang))
    ensures ItemHeaders(items, lang)[k] != ItemHeaders(items, lang)[l]
  {
    var i, j := FirstIndex(ItemIds(items), k), FirstIndex(ItemIds(items), l);
    var bases := Bases(items, lang);
    if i < j {
      PairDistinct(bases, i, j);
    } else {
      assert ItemIds(items)[i] == k && ItemIds(items)[j] == l;
      PairDistinct(bases, j, i);
    }
  }
}
