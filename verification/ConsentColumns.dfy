// mergeConsentWide and mergeConsentWideStrings of internal/services/export_service.go: one column per consent choice
// is added to the rows of the wide table, numeric or textual.
module ConsentColumns {
  import opened Wrappers
  import opened Survey
  import opened Headers
  import opened Decimal

  datatype ConsentOption = ConsentOption(key: string, labels: Option<map<string, string>>)

  datatype Mode = Plain | LabelEn | LabelZh

  function Language(mode: Mode): string {
    if mode == LabelZh then "zh" else "en"
  }

  // consentLabel: the first option with the key decides, even if it has no label. No configuration is an empty list.
  function ConsentLabel(options: seq<ConsentOption>, key: string, lang: string): string {
    if options == [] then ""
    else if options[0].key == key then
      if Localized(options[0].labels, lang) != "" then Localized(options[0].labels, lang) else Localized(options[0].labels, "en")
    else ConsentLabel(options[1..], key, lang)
  }

  // The name a choice's column gets before it is made unique.
  function ColumnBase(options: seq<ConsentOption>, mode: Mode, key: string): string {
    var text := ConsentLabel(options, key, Language(mode));
    if mode != Plain && text != "" then text else "consent." + key
  }

  // The first option of that key.
  predicate IsOption(options: seq<ConsentOption>, i: nat, key: string) {
    i < |options| && options[i].key == key && forall j :: 0 <= j < i ==> options[j].key != key
  }

  predicate Says(option: ConsentOption, lang: string, text: string) {
    text != "" && option.labels.Some? && lang in option.labels.value && option.labels.value[lang] == text
  }

  // A column is called by the Chinese label in the Chinese mode, by the English one in the English mode and where there is
  // no Chinese one, and by "consent." and the key where there is no label at all, or none is wanted.
  lemma {:induction false} ColumnNamed(options: seq<ConsentOption>, mode: Mode, key: string, i: nat, text: string)
    ensures mode == Plain ==> ColumnBase(options, mode, key) == "consent." + key
    ensures (forall j :: 0 <= j < |options| ==> options[j].key != key) ==> ColumnBase(options, mode, key) == "consent." + key
    ensures mode == LabelZh && IsOption(options, i, key) && Says(options[i], "zh", text) ==> ColumnBase(options, mode, key) == text
    ensures mode != Plain && IsOption(options, i, key) && (mode == LabelZh ==> forall t :: !Says(options[i], "zh", t)) ==>
      && (Says(options[i], "en", text) ==> ColumnBase(options, mode, key) == text)
      && ((forall t :: !Says(options[i], "en", t)) ==> ColumnBase(options, mode, key) == "consent." + key)
  {
    if options != [] && options[0].key == key {
      assert IsOption(options, i, key) ==> i == 0;
      UsualText(options[0], "zh");
      UsualText(options[0], "en");
    } else if options != [] {
      ColumnNamed(options[1..], mode, key, if i > 0 then i - 1 else 0, text);
      assert forall j :: 0 <= j < |options| && (forall l :: 0 <= l < |options| ==> options[l].key != key) ==> options[j].key != key;
      assert forall j :: 1 <= j < |options| ==> options[j] == options[1..][j - 1];
    }
  }

  lemma UsualText(option: ConsentOption, lang: string)
    ensures Localized(option.labels, lang) != "" ==> Says(option, lang, Localized(option.labels, lang))
    ensures Localized(option.labels, lang) == "" ==> forall t :: !Says(option, lang, t)
  {
  }

  predicate Taken(existing: set<string>, base: string, n: nat) {
    Suffixed(base, n) in existing
  }

  // The base name if n is 1, the n-th numbered name otherwise: the first of them that is free.
  predicate FirstFree(existing: set<string>, base: string, n: nat, name: string) {
    && n >= 1 && name == (if n == 1 then base else Suffixed(base, n)) && name !in existing
    && (n > 1 ==> base in existing)
    && (forall m :: 2 <= m < n ==> Taken(existing, base, m))
  }

  // A free base name is taken as it is; otherwise the name is "base (n)" for the least n from 2 on that makes it free.
  lemma FreeNameFound(existing: set<string>, base: string, n: nat, name: string)
    requires FirstFree(existing, base, n, name)
    ensures name !in existing
    ensures base !in existing ==> name == base
    ensures base in existing ==> n >= 2 && name == base + " (" + Numeral(n) + ")"
    ensures base in existing ==> forall m :: 2 <= m < n ==> Suffixed(base, m) in existing
  {
    forall m | 2 <= m < n && base in existing ensures Suffixed(base, m) in existing {
      assert Taken(existing, base, m);
    }
  }

  // colName. The loop has no bound of its own; it ends because the names tried are pairwise different and a row has
  // finitely many columns.
  method ColName(existing: set<string>, base: string) returns (name: string)
    ensures exists n: nat :: FirstFree(existing, base, n, name)
    ensures name !in existing && NameFor(base, name)
  {
    if base !in existing {
      assert FirstFree(existing, base, 1, base);
      return base;
    }
    var i := 2;
    while true
      invariant 2 <= i
      invariant forall m :: 2 <= m < i ==> Taken(existing, base, m)
      decreases |existing| + 2 - i
    {
      var cand := Suffixed(base, i);
      if cand !in existing {
        assert FirstFree(existing, base, i, cand);
        return cand;
      }
      assert Taken(existing, base, i);
      TriedFit(existing, base, i + 1);
      i := i + 1;
    }
  }

  // Pigeonhole: no more numbered names are taken than there are columns.
  lemma {:induction false} TriedFit(existing: set<string>, base: string, i: nat)
    requires i >= 2
    requires forall m :: 2 <= m < i ==> Taken(existing, base, m)
    ensures i - 2 <= |existing|
    decreases i
  {
    if i > 2 {
      var last := Suffixed(base, i - 1);
      assert Taken(existing, base, i - 1);
      forall m | 2 <= m < i - 1 ensures Taken(existing - {last}, base, m) {
        assert Taken(existing, base, m);
        SuffixedInjective(base, m, base, i - 1);
      }
      TriedFit(existing - {last}, base, i - 1);
    }
  }

  // Where each of the choices done went: to columns of their own, none of which the row had.
  ghost predicate MergedApart<V>(row: map<string, V>, choices: map<string, bool>, done: set<string>, yes: V, no: V,
                                 merged: map<string, V>, placed: map<string, string>)
  {
    && placed.Keys == done <= choices.Keys
    && (forall c, d :: c in placed && d in placed && c != d ==> placed[c] != placed[d])
    && (forall c :: c in placed ==> placed[c] !in row && placed[c] in merged && merged[placed[c]] == if choices[c] then yes else no)
    && (forall k :: k in row ==> k in merged && merged[k] == row[k])
    && merged.Keys == row.Keys + Columns(placed)
  }

  function Columns(placed: map<string, string>): set<string> {
    set c | c in placed :: placed[c]
  }

  lemma ColumnsStep(placed: map<string, string>, k: string, name: string)
    requires k !in placed
    ensures Columns(placed[k := name]) == Columns(placed) + {name}
  {
    var more := placed[k := name];
    forall x ensures x in Columns(more) <==> x in Columns(placed) + {name} {
      if x in Columns(placed) {
        var c :| c in placed && placed[c] == x;
        assert c in more && more[c] == x;
      }
      if x == name {
        assert k in more && more[k] == x;
      }
    }
  }

  // Every column carries its choice's label, numbered if need be.
  ghost predicate WellNamed(placed: map<string, string>, options: seq<ConsentOption>, mode: Mode) {
    forall c :: c in placed ==> NameFor(ColumnBase(options, mode, c), placed[c])
  }

  ghost predicate NameFor(base: string, name: string) {
    name == base || exists n: nat :: n >= 2 && name == Suffixed(base, n)
  }

  // Label mode, one row. The columns' names may depend on the order the choices are walked in, nothing else does.
  method MergeLabelled<V>(row: map<string, V>, choices: map<string, bool>, options: seq<ConsentOption>, mode: Mode, yes: V, no: V)
      returns (merged: map<string, V>, ghost placed: map<string, string>)
    requires mode != Plain
    ensures MergedApart(row, choices, choices.Keys, yes, no, merged, placed)
    ensures WellNamed(placed, options, mode)
  {
    merged, placed := row, map[];
    var left := choices.Keys;
    while left != {}
      invariant MergingApart(row, choices, left, options, mode, yes, no, merged, placed)
      decreases |left|
    {
      var k :| k in left;
      var name := ColName(merged.Keys, ColumnBase(options, mode, k));
      OneMoreChoice(row, choices, left, options, mode, yes, no, merged, placed, k, name);
      left := left - {k};
      merged := merged[name := if choices[k] then yes else no];
      placed := placed[k := name];
    }
    assert choices.Keys - left == choices.Keys;
  }

  // The same with some choices left to merge.
  ghost predicate MergingApart<V>(row: map<string, V>, choices: map<string, bool>, left: set<string>, options: seq<ConsentOption>,
                                  mode: Mode, yes: V, no: V, merged: map<string, V>, placed: map<string, string>)
  {
    && left <= choices.Keys
    && MergedApart(row, choices, choices.Keys - left, yes, no, merged, placed)
    && WellNamed(placed, options, mode)
  }

  lemma OneMoreChoice<V>(row: map<string, V>, choices: map<string, bool>, left: set<string>, options: seq<ConsentOption>,
                         mode: Mode, yes: V, no: V, merged: map<string, V>, placed: map<string, string>, k: string, name: string)
    requires MergingApart(row, choices, left, options, mode, yes, no, merged, placed)
    requires k in left && k in choices && name !in merged && NameFor(ColumnBase(options, mode, k), name)
    ensures MergingApart(row, choices, left - {k}, options, mode, yes, no,
                         merged[name := if choices[k] then yes else no], placed[k := name])
  {
    OneMoreApart(row, choices, choices.Keys - left, k, name, yes, no, merged, placed);
    OneMoreNamed(placed, options, mode, k, name);
    assert choices.Keys - left + {k} == choices.Keys - (left - {k});
  }

  lemma OneMoreNamed(placed: map<string, string>, options: seq<ConsentOption>, mode: Mode, k: string, name: string)
    requires WellNamed(placed, options, mode) && NameFor(ColumnBase(options, mode, k), name)
    ensures WellNamed(placed[k := name], options, mode)
  {
  }

  lemma OneMoreApart<V>(row: map<string, V>, choices: map<string, bool>, done: set<string>, k: string, name: string,
                        yes: V, no: V, merged: map<string, V>, placed: map<string, string>)
    requires MergedApart(row, choices, done, yes, no, merged, placed)
    requires k in choices && k !in done && name !in merged
    ensures MergedApart(row, choices, done + {k}, yes, no, merged[name := if choices[k] then yes else no], placed[k := name])
  {
    ColumnsStep(placed, k, name);
    forall c | c in placed ensures placed[c] != name {
      assert placed[c] in Columns(placed);
    }
  }

  // In label mode merging changes no cell and adds exactly one column per choice.
  lemma LabelledAddsOnePerChoice<V>(row: map<string, V>, choices: map<string, bool>, yes: V, no: V,
                                                       merged: map<string, V>, placed: map<string, string>)
    requires MergedApart(row, choices, choices.Keys, yes, no, merged, placed)
    ensures |merged| == |row| + |choices|
    ensures forall k :: k in row ==> k in merged && merged[k] == row[k]
    ensures forall c :: c in choices ==> c in placed && placed[c] in merged && placed[c] !in row
    ensures forall c :: c in choices ==> merged[placed[c]] == if choices[c] then yes else no
  {
    PlacedSize(placed);
    NoneInRow(row.Keys, placed);
    AddedKeys(row.Keys, Columns(placed), merged.Keys);
  }

  lemma NoneInRow(keys: set<string>, placed: map<string, string>)
    requires forall c :: c in placed ==> placed[c] !in keys
    ensures keys !! Columns(placed)
  {
  }

  lemma AddedKeys(a: set<string>, b: set<string>, c: set<string>)
    requires a !! b && c == a + b
    ensures |c| == |a| + |b|
  {
  }

  lemma {:induction false} PlacedSize(placed: map<string, string>)
    requires forall c, d :: c in placed && d in placed && c != d ==> placed[c] != placed[d]
    ensures |Columns(placed)| == |placed|
    decreases |placed|
  {
    if placed != map[] {
      var k :| k in placed;
      var fewer := placed - {k};
      assert placed == fewer[k := placed[k]];
      PlacedSize(fewer);
      ColumnsStep(fewer, k, placed[k]);
      assert placed[k] !in Columns(fewer);
    }
  }

  // Without labels the column of choice k is "consent." + k, free or not.
  function PlainColumn(k: string): string {
    "consent." + k
  }

  ghost predicate MergedPlain<V>(row: map<string, V>, choices: map<string, bool>, done: set<string>, yes: V, no: V,
                                 merged: map<string, V>)
  {
    && done <= choices.Keys
    && (forall c :: c in done ==> PlainColumn(c) in merged && merged[PlainColumn(c)] == if choices[c] then yes else no)
    && (forall k :: k in row && (forall c :: c in done ==> PlainColumn(c) != k) ==> k in merged && merged[k] == row[k])
    && (forall k :: k in merged ==> k in row || exists c :: c in done && PlainColumn(c) == k)
  }

  lemma PlainColumnInjective(c: string, d: string)
    ensures PlainColumn(c) == PlainColumn(d) <==> c == d
  {
    assert PlainColumn(c)[8..] == c && PlainColumn(d)[8..] == d;
  }

  method MergePlain<V>(row: map<string, V>, choices: map<string, bool>, yes: V, no: V) returns (merged: map<string, V>)
    ensures MergedPlain(row, choices, choices.Keys, yes, no, merged)
  {
    merged := row;
    var left := choices.Keys;
    while left != {}
      invariant left <= choices.Keys
      invariant MergedPlain(row, choices, choices.Keys - left, yes, no, merged)
      decreases |left|
    {
      var k :| k in left;
      OneMorePlain(row, choices, choices.Keys - left, k, yes, no, merged);
      assert choices.Keys - left + {k} == choices.Keys - (left - {k});
      left := left - {k};
      merged := merged[PlainColumn(k) := if choices[k] then yes else no];
    }
    assert choices.Keys - left == choices.Keys;
  }

  lemma OneMorePlain<V>(row: map<string, V>, choices: map<string, bool>, done: set<string>, k: string, yes: V, no: V,
                        merged: map<string, V>)
    requires MergedPlain(row, choices, done, yes, no, merged)
    requires k in choices && k !in done
    ensures MergedPlain(row, choices, done + {k}, yes, no, merged[PlainColumn(k) := if choices[k] then yes else no])
  {
    var more, after := done + {k}, merged[PlainColumn(k) := if choices[k] then yes else no];
    forall c | c in more ensures PlainColumn(c) in after && after[PlainColumn(c)] == if choices[c] then yes else no {
      PlainColumnInjective(c, k);
    }
    forall x | x in row && (forall c :: c in more ==> PlainColumn(c) != x) ensures x in after && after[x] == row[x] {
      assert k in more;
    }
    forall x | x in after ensures x in row || exists c :: c in more && PlainColumn(c) == x {
      if x in merged && x !in row {
        var c :| c in done && PlainColumn(c) == x;
        assert c in more;
      } else if x !in merged {
        assert k in more && PlainColumn(k) == x;
      }
    }
  }

  // Without labels, a choice stands in the column of its key, whatever stood there before.
  lemma PlainCell<V>(row: map<string, V>, choices: map<string, bool>, yes: V, no: V, merged: map<string, V>, c: string)
    requires MergedPlain(row, choices, choices.Keys, yes, no, merged) && c in choices
    ensures "consent." + c in merged && merged["consent." + c] == if choices[c] then yes else no
  {
    assert PlainColumn(c) in merged;
  }

  // Without labels, merging changes no cell for sure only if no item column is called like a choice's column.
  lemma PlainKeepsCells<V>(row: map<string, V>, choices: map<string, bool>, yes: V, no: V, merged: map<string, V>)
    requires MergedPlain(row, choices, choices.Keys, yes, no, merged)
    ensures (forall k :: k in row ==> merged[k] == row[k])
      <==> (forall c :: c in choices && PlainColumn(c) in row ==> row[PlainColumn(c)] == if choices[c] then yes else no)
  {
    forall k | k in row ensures k in merged {
      assert (forall c :: c in choices ==> PlainColumn(c) != k) || exists c :: c in choices && PlainColumn(c) == k;
    }
  }

  // An item whose stem is "consent.marketing" loses its score to the answer about marketing.
  lemma PlainOverwrites(merged: map<string, int>)
    requires MergedPlain(map["consent.marketing" := 5], map["marketing" := true], {"marketing"}, 1, 0, merged)
    ensures merged["consent.marketing"] == 1
  {
    assert PlainColumn("marketing") == "consent.marketing";
  }

  datatype Consent = Consent(scaleId: string, choices: map<string, bool>)

  // The choices merged into a participant's row: none without a consent of this very scale.
  function ChoicesOf(participants: map<string, string>, consents: map<string, Consent>, scaleId: string, pid: string): map<string, bool> {
    if pid in participants && participants[pid] != "" && participants[pid] in consents && consents[participants[pid]].scaleId == scaleId
    then consents[participants[pid]].choices else map[]
  }

  // A consent counts for the scale it was given for and for no other.
  lemma ConsentCounts(participants: map<string, string>, consents: map<string, Consent>, scaleId: string, pid: string, cid: string)
    requires pid in participants && participants[pid] == cid
    ensures cid != "" && cid in consents && consents[cid].scaleId == scaleId ==>
      ChoicesOf(participants, consents, scaleId, pid) == consents[cid].choices
    ensures cid == "" || cid !in consents || consents[cid].scaleId != scaleId ==>
      ChoicesOf(participants, consents, scaleId, pid) == map[]
  {
  }

  ghost predicate MergedRow<V>(row: map<string, V>, choices: map<string, bool>, options: seq<ConsentOption>, mode: Mode,
                               yes: V, no: V, merged: map<string, V>)
  {
    if mode == Plain then MergedPlain(row, choices, choices.Keys, yes, no, merged)
    else exists placed :: MergedApart(row, choices, choices.Keys, yes, no, merged, placed) && WellNamed(placed, options, mode)
  }

  // participants maps an id to the id of the consent given, "" for none; pids are those of the exported responses.
  method MergeConsentWide<V>(mp: map<string, map<string, V>>, pids: set<string>, participants: map<string, string>,
                             consents: map<string, Consent>, scaleId: string, options: seq<ConsentOption>, mode: Mode, yes: V, no: V)
      returns (out: map<string, map<string, V>>)
    ensures forall pid :: pid !in pids ==> (pid in out <==> pid in mp) && (pid in mp ==> out[pid] == mp[pid])
    ensures forall pid :: pid in pids ==>
      var choices := ChoicesOf(participants, consents, scaleId, pid);
      if pid in out then MergedRow(if pid in mp then mp[pid] else map[], choices, options, mode, yes, no, out[pid])
      else pid !in mp && choices == map[]
  {
    out := mp;
    var left := pids;
    while left != {}
      invariant left <= pids
      invariant forall pid :: pid !in pids || pid in left ==> (pid in out <==> pid in mp) && (pid in mp ==> out[pid] == mp[pid])
      invariant forall pid :: pid in pids && pid !in left ==>
        var choices := ChoicesOf(participants, consents, scaleId, pid);
        if pid in out then MergedRow(if pid in mp then mp[pid] else map[], choices, options, mode, yes, no, out[pid])
        else pid !in mp && choices == map[]
      decreases |left|
    {
      var pid :| pid in left;
      left := left - {pid};
      if pid !in participants || participants[pid] == "" || participants[pid] !in consents
         || consents[participants[pid]].scaleId != scaleId {
        if pid in mp {
          UntouchedRow(mp[pid], options, mode, yes, no);
        }
        continue;
      }
      var row := if pid in out then out[pid] else map[];
      var choices := consents[participants[pid]].choices;
      var merged: map<string, V>;
      if mode == Plain {
        merged := MergePlain(row, choices, yes, no);
      } else {
        ghost var placed;
        merged, placed := MergeLabelled(row, choices, options, mode, yes, no);
      }
      out := out[pid := merged];
    }
  }

  lemma UntouchedRow<V>(row: map<string, V>, options: seq<ConsentOption>, mode: Mode, yes: V, no: V)
    ensures MergedRow(row, map[], options, mode, yes, no, row)
  {
    assert MergedApart(row, map[], {}, yes, no, row, map[]) && WellNamed(map[], options, mode);
  }
}
