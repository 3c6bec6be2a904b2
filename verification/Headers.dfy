// The column headers of the wide exports in internal/services/export_service.go: an item's stem, made unique by
// " (2)", " (3)", ... where several items share it.
module Headers {
  import opened Survey
  import opened Listing
  import opened Decimal
  import opened Filtering

  // applyEnglishItemHeaders
  function EnglishBase(it: Item): string {
    if Localized(it.body.stem, "en") != "" then Localized(it.body.stem, "en") else it.id
  }

  // applyItemHeaders for another language, and buildWideMapStrings for any
  function LocalizedBase(it: Item, lang: string): string {
    if Localized(it.body.stem, lang) != "" then Localized(it.body.stem, lang)
    else if Localized(it.body.stem, "en") != "" then Localized(it.body.stem, "en")
    else it.id
  }

  // applyItemHeaders
  function Base(it: Item, lang: string): string {
    if lang == "en" || lang == "" then EnglishBase(it) else LocalizedBase(it, lang)
  }

  // The stem in the language asked for, else the English one, else the id; an empty text is none.
  lemma PreferredStem(it: Item, lang: string)
    ensures
      var own := it.body.stem.Some? && lang in it.body.stem.value && it.body.stem.value[lang] != "";
      var english := it.body.stem.Some? && "en" in it.body.stem.value && it.body.stem.value["en"] != "";
      && (lang != "" && own ==> Base(it, lang) == it.body.stem.value[lang])
      && ((lang == "" || !own) && english ==> Base(it, lang) == it.body.stem.value["en"])
      && ((lang == "" || !own) && !english ==> Base(it, lang) == it.id)
  {
  }

  function Bases(items: seq<Item>, lang: string): seq<string> {
    seq(|items|, i requires 0 <= i < |items| => Base(items[i], lang))
  }

  // The three copies of the code choose the same base names for every language the exports run with.
  lemma SameBases(it: Item, lang: string)
    requires lang != ""
    ensures Base(it, lang) == LocalizedBase(it, lang)
    ensures Base(it, "") == Base(it, "en") == EnglishBase(it)
  {
  }

  function Count(bases: seq<string>, b: string): (n: nat)
    ensures n > 0 <==> b in bases
  {
    multiset(bases)[b]
  }

  lemma CountStep(bases: seq<string>, n: nat, b: string)
    requires n < |bases|
    ensures Count(bases[..n + 1], b) == Count(bases[..n], b) + if bases[n] == b then 1 else 0
  {
    assert bases[..n + 1] == bases[..n] + [bases[n]];
  }

  function Suffixed(base: string, n: nat): string {
    base + " (" + Numeral(n) + ")"
  }

  // The i-th item's header: its base name, numbered from the second item of that name on.
  function Header(bases: seq<string>, i: nat): string
    requires i < |bases|
  {
    var n := Count(bases[..i + 1], bases[i]);
    if n <= 1 then bases[i] else Suffixed(bases[i], n)
  }

  // The n-th item of a name, counted from the first, is called by the name alone if n is 1 and by "name (n)" otherwise.
  lemma HeaderNumbered(bases: seq<string>, i: nat, alike: string -> bool)
    requires i < |bases| && forall b :: alike(b) <==> b == bases[i]
    ensures
      var n := |Places(bases[..i + 1], alike)|;
      n >= 1 && Header(bases, i) == if n == 1 then bases[i] else bases[i] + " (" + Numeral(n) + ")"
  {
    CountsPlaces(bases[..i + 1], bases[i], alike);
    assert bases[..i + 1][i] == bases[i];
  }

  // Both passes of the renaming code, for given base names.
  method UniqueNames(ids: seq<string>, bases: seq<string>) returns (unique: map<string, string>)
    requires |ids| == |bases| && NoDuplicates(ids)
    ensures forall id :: id in unique <==> id in ids
    ensures forall i :: 0 <= i < |ids| ==> unique[ids[i]] == Header(bases, i)
  {
    var counts: map<string, nat> := map[];
    for i := 0 to |bases|
      invariant forall b :: (b in counts <==> b in bases[..i]) && (b in counts ==> counts[b] == Count(bases[..i], b))
    {
      var b := bases[i];
      assert bases[..i + 1] == bases[..i] + [b];
      forall x ensures Count(bases[..i + 1], x) == Count(bases[..i], x) + if b == x then 1 else 0 {
        CountStep(bases, i, x);
      }
      counts := counts[b := (if b in counts then counts[b] else 0) + 1];
    }
    assert bases[..|bases|] == bases;
    unique := NumberNames(ids, bases, counts);
  }

  method NumberNames(ids: seq<string>, bases: seq<string>, counts: map<string, nat>) returns (unique: map<string, string>)
    requires |ids| == |bases| && NoDuplicates(ids)
    requires forall b :: b in bases ==> b in counts && counts[b] == Count(bases, b)
    ensures forall id :: id in unique <==> id in ids
    ensures forall i :: 0 <= i < |ids| ==> unique[ids[i]] == Header(bases, i)
  {
    unique := map[];
    var nextIdx: map<string, nat> := map[];
    for i := 0 to |ids|
      invariant Named(unique, ids, HeadersOf(bases), i)
      invariant Numbered(nextIdx, bases, i)
    {
      var name;
      name, nextIdx := NameNext(bases, counts, nextIdx, i);
      NamedStep(unique, ids, HeadersOf(bases), i);
      unique := unique[ids[i] := name];
    }
    assert ids[..|ids|] == ids;
  }

  method NameNext(bases: seq<string>, counts: map<string, nat>, nextIdx: map<string, nat>, i: nat)
    returns (name: string, next: map<string, nat>)
    requires i < |bases| && Numbered(nextIdx, bases, i)
    requires forall b :: b in bases ==> b in counts && counts[b] == Count(bases, b)
    ensures name == Header(bases, i)
    ensures Numbered(next, bases, i + 1)
  {
    var base := bases[i];
    assert base in bases;
    NumberedHeader(nextIdx, bases, i);
    next := nextIdx;
    if counts[base] <= 1 {
      name := base;
    } else {
      next := nextIdx[base := Next(nextIdx, base) + 1];
      var idx := next[base];
      name := if idx == 1 then base else Suffixed(base, idx);
    }
    NumberedStep(nextIdx, next, bases, i);
  }

  function HeadersOf(bases: seq<string>): seq<string> {
    seq(|bases|, i requires 0 <= i < |bases| => Header(bases, i))
  }

  predicate Named(unique: map<string, string>, ids: seq<string>, names: seq<string>, i: nat)
    requires i <= |ids| == |names|
  {
    && (forall id :: id in unique ==> id in ids[..i])
    && (forall j :: 0 <= j < i ==> ids[j] in unique && unique[ids[j]] == names[j])
  }

  lemma NamedStep(unique: map<string, string>, ids: seq<string>, names: seq<string>, i: nat)
    requires i < |ids| == |names| && NoDuplicates(ids) && Named(unique, ids, names, i)
    ensures Named(unique[ids[i] := names[i]], ids, names, i + 1)
  {
    assert ids[..i + 1] == ids[..i] + [ids[i]];
  }

  // For every repeated name, how many of its items are numbered so far.
  predicate Numbered(nextIdx: map<string, nat>, bases: seq<string>, i: nat)
    requires i <= |bases|
  {
    forall b :: b in bases && Count(bases, b) > 1 ==> Next(nextIdx, b) == Count(bases[..i], b)
  }

  lemma NumberedStep(nextIdx: map<string, nat>, next: map<string, nat>, bases: seq<string>, i: nat)
    requires i < |bases| && Numbered(nextIdx, bases, i)
    requires next == if Count(bases, bases[i]) <= 1 then nextIdx else nextIdx[bases[i] := Next(nextIdx, bases[i]) + 1]
    ensures Numbered(next, bases, i + 1)
  {
    forall b | b in bases && Count(bases, b) > 1 ensures Next(next, b) == Count(bases[..i + 1], b) {
      CountStep(bases, i, b);
    }
  }

  lemma NumberedHeader(nextIdx: map<string, nat>, bases: seq<string>, i: nat)
    requires i < |bases| && Numbered(nextIdx, bases, i) && bases[i] in bases
    ensures Count(bases, bases[i]) <= 1 ==> Header(bases, i) == bases[i]
    ensures Count(bases, bases[i]) > 1 ==>
      var idx := Next(nextIdx, bases[i]) + 1;
      Header(bases, i) == if idx == 1 then bases[i] else Suffixed(bases[i], idx)
  {
    CountStep(bases, i, bases[i]);
    CountMonotone(bases, i + 1, bases[i]);
  }

  function Next(nextIdx: map<string, nat>, b: string): nat {
    if b in nextIdx then nextIdx[b] else 0
  }

  lemma {:induction false} CountMonotone(bases: seq<string>, n: nat, b: string)
    requires n <= |bases|
    ensures Count(bases[..n], b) <= Count(bases, b)
    decreases |bases| - n
  {
    if n == |bases| {
      assert bases[..n] == bases;
    } else {
      CountMonotone(bases, n + 1, b);
      CountStep(bases, n, b);
    }
  }

  // ----- when headers are distinct -----

  // A numbered name determines the name and the number.
  lemma SuffixedInjective(a: string, m: nat, b: string, n: nat)
    ensures Suffixed(a, m) == Suffixed(b, n) <==> a == b && m == n
  {
    if Suffixed(a, m) == Suffixed(b, n) {
      var s, x, y := Suffixed(a, m), Numeral(m), Numeral(n);
      SuffixedAt(a, m);
      SuffixedAt(b, n);
      assert |x| == |y|;
      assert x == s[|s| - 1 - |x|..|s| - 1] == y;
      assert a == s[..|s| - 3 - |x|] == b;
      NumeralInjective(m, n);
    }
  }

  lemma SuffixedAt(base: string, n: nat)
    ensures var s, k := Suffixed(base, n), |Numeral(n)|;
            && |s| == |base| + k + 3
            && s[|s| - 2 - k] == '('
            && (forall i :: |s| - 1 - k <= i < |s| - 1 ==> IsDigit(s[i]))
            && s[|s| - 1 - k..|s| - 1] == Numeral(n)
            && s[..|s| - 3 - k] == base
  {
  }

  // A name longer than its base.
  lemma SuffixedIsNew(base: string, n: nat)
    ensures Suffixed(base, n) != base
  {
    assert |Suffixed(base, n)| > |base|;
  }

  // Some stem already reads like another, repeated stem with a number.
  predicate Ambiguous(bases: seq<string>) {
    exists i, n :: 0 <= i < |bases| && 2 <= n <= Count(bases, bases[i]) && Suffixed(bases[i], n) in bases
  }

  predicate DistinctHeaders(bases: seq<string>) {
    forall i, j :: 0 <= i < j < |bases| ==> Header(bases, i) != Header(bases, j)
  }

  lemma SameBaseCountsOn(bases: seq<string>, i: nat, j: nat)
    requires i < j < |bases| && bases[i] == bases[j]
    ensures Count(bases[..i + 1], bases[i]) < Count(bases[..j + 1], bases[j])
  {
    assert bases[..j][..i + 1] == bases[..i + 1];
    CountMonotone(bases[..j], i + 1, bases[i]);
    CountStep(bases, j, bases[j]);
  }

  lemma CountAtLeastOne(bases: seq<string>, i: nat)
    requires i < |bases|
    ensures 1 <= Count(bases[..i + 1], bases[i]) <= Count(bases, bases[i])
  {
    CountStep(bases, i, bases[i]);
    CountMonotone(bases, i + 1, bases[i]);
  }

  lemma FirstOccurrence(bases: seq<string>, b: string) returns (i: nat)
    requires b in bases
    ensures i < |bases| && bases[i] == b && Header(bases, i) == b
  {
    i :| 0 <= i < |bases| && bases[i] == b && forall j :: 0 <= j < i ==> bases[j] != b by {
      Earliest(bases, b);
    }
    assert b !in bases[..i];
    CountStep(bases, i, b);
  }

  lemma {:induction false} Earliest(bases: seq<string>, b: string)
    requires b in bases
    ensures exists i :: 0 <= i < |bases| && bases[i] == b && forall j :: 0 <= j < i ==> bases[j] != b
  {
    var n := |bases| - 1;
    assert bases == bases[..n] + [bases[n]];
    if b in bases[..n] {
      Earliest(bases[..n], b);
      var i :| 0 <= i < n && bases[..n][i] == b && forall j :: 0 <= j < i ==> bases[..n][j] != b;
      assert bases[i] == b && forall j :: 0 <= j < i ==> bases[j] == bases[..n][j];
    } else {
      assert forall j :: 0 <= j < n ==> bases[j] == bases[..n][j];
    }
  }

  // The n-th item of a repeated name.
  lemma {:induction false} NthOccurrence(bases: seq<string>, b: string, n: nat) returns (i: nat)
    requires 1 <= n <= Count(bases, b)
    ensures i < |bases| && bases[i] == b && Count(bases[..i + 1], b) == n
  {
    var last := |bases| - 1;
    assert bases[..last + 1] == bases;
    CountStep(bases, last, b);
    if bases[last] == b && Count(bases, b) == n {
      i := last;
    } else {
      i := NthOccurrence(bases[..last], b, n);
      assert bases[..last][..i + 1] == bases[..i + 1];
    }
  }

  // Distinct items get distinct headers exactly when no stem equals another repeated stem plus one of its numbers.
  lemma HeadersDistinct(bases: seq<string>)
    ensures DistinctHeaders(bases) <==> !Ambiguous(bases)
  {
    if Ambiguous(bases) {
      var i, n :| 0 <= i < |bases| && 2 <= n <= Count(bases, bases[i]) && Suffixed(bases[i], n) in bases;
      var j := NthOccurrence(bases, bases[i], n);
      assert Header(bases, j) == Suffixed(bases[i], n);
      var k := FirstOccurrence(bases, Suffixed(bases[i], n));
      SuffixedIsNew(bases[i], n);
      assert j != k && Header(bases, j) == Header(bases, k);
      assert !DistinctHeaders(bases);
    } else {
      forall i, j | 0 <= i < j < |bases| ensures Header(bases, i) != Header(bases, j) {
        PairDistinct(bases, i, j);
      }
    }
  }

  lemma PairDistinct(bases: seq<string>, i: nat, j: nat)
    requires i < j < |bases| && !Ambiguous(bases)
    ensures Header(bases, i) != Header(bases, j)
  {
    var m, n := Count(bases[..i + 1], bases[i]), Count(bases[..j + 1], bases[j]);
    CountAtLeastOne(bases, i);
    CountAtLeastOne(bases, j);
    SuffixedInjective(bases[i], m, bases[j], n);
    if bases[i] == bases[j] {
      SameBaseCountsOn(bases, i, j);
      SuffixedIsNew(bases[j], n);
    } else {
      assert m >= 2 ==> Suffixed(bases[i], m) !in bases;
      assert n >= 2 ==> Suffixed(bases[j], n) !in bases;
    }
  }

  // For example these three stems give two items one column.
  lemma AmbiguousStems()
    ensures !DistinctHeaders(["Q", "Q", "Q (2)"])
  {
    var bases := ["Q", "Q", "Q (2)"];
    assert Suffixed("Q", 2) == "Q (2)" by {
      assert Numeral(2) == "2";
    }
    assert bases[..2] == ["Q", "Q"] && bases[..2][..1] == ["Q"] && bases[..2][..1][..0] == [];
    assert Count(bases[..2], "Q") == 2;
    CountMonotone(bases, 2, "Q");
    assert Suffixed(bases[0], 2) in bases;
    HeadersDistinct(bases);
  }
}
