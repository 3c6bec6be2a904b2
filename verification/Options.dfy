// Option labels: normalizeRawToEnglish of internal/services/response_service.go stores an answer in English and
// mapRawJSONToLang of internal/services/export_service.go shows it in the language asked for. Both walk a Go map, in no
// fixed order, so each helper is specified by the outcomes it may have. key stands for what two labels are compared by:
// the trimmed text under Unicode's simple case folding. The results hold for any key.
module Options {
  import opened Wrappers
  import opened Survey
  import opened Text

  type Labels = map<string, seq<string>>

  predicate Same(key: string -> string, a: string, b: string) {
    key(a) == key(b)
  }

  // The length of the list stands for "no such label".
  function FirstMatch(key: string -> string, list: seq<string>, val: string): (r: nat)
    ensures r <= |list|
    ensures r < |list| ==> Same(key, list[r], val)
    ensures forall i :: 0 <= i < r ==> !Same(key, list[i], val)
  {
    if list == [] || Same(key, list[0], val) then 0 else 1 + FirstMatch(key, list[1..], val)
  }

  method FindInList(key: string -> string, list: seq<string>, val: string) returns (r: nat)
    ensures r == FirstMatch(key, list, val)
  {
    r := 0;
    while r < |list| && !Same(key, list[r], val)
      invariant r <= |list|
      invariant forall j :: 0 <= j < r ==> !Same(key, list[j], val)
    {
      r := r + 1;
    }
  }

  predicate FoundIn(key: string -> string, opts: Labels, lang: string, val: string, r: int) {
    lang in opts && r == FirstMatch(key, opts[lang], val) < |opts[lang]|
  }

  predicate NoMatch(key: string -> string, opts: Labels, val: string) {
    forall lang :: lang in opts ==> FirstMatch(key, opts[lang], val) == |opts[lang]|
  }

  // findIndex answers with the first match in whichever language comes first among those that have one.
  ghost predicate MayFind(key: string -> string, opts: Labels, val: string, r: int) {
    if r == -1 then NoMatch(key, opts, val) else exists lang :: FoundIn(key, opts, lang, val, r)
  }

  method FindIndex(key: string -> string, opts: Labels, val: string) returns (r: int)
    ensures MayFind(key, opts, val, r)
  {
    var done: set<string> := {};
    while done != opts.Keys
      invariant done <= opts.Keys
      invariant forall lang :: lang in done ==> FirstMatch(key, opts[lang], val) == |opts[lang]|
      decreases |opts.Keys - done|
    {
      var lang :| lang in opts.Keys - done by { SomethingLeft(opts.Keys, done); }
      var i := FindInList(key, opts[lang], val);
      if i < |opts[lang]| {
        assert FoundIn(key, opts, lang, val, i);
        return i;
      }
      Fewer(opts.Keys, done, lang);
      done := done + {lang};
    }
    return -1;
  }

  lemma SomethingLeft(all: set<string>, done: set<string>)
    requires done <= all && done != all
    ensures exists x :: x in all - done
  {
    var left := all - done;
    if left == {} {
      assert all <= done by {
        forall x | x in all ensures x in done {
          assert x !in left;
        }
      }
    }
  }

  lemma Fewer(all: set<string>, done: set<string>, x: string)
    requires x in all - done
    ensures |all - (done + {x})| < |all - done|
  {
    assert all - (done + {x}) == (all - done) - {x};
  }

  predicate Has(opts: Labels, lang: string, idx: nat) {
    lang in opts && idx < |opts[lang]|
  }

  predicate HasNonBlank(opts: Labels, lang: string, idx: nat) {
    Has(opts, lang, idx) && Trim(opts[lang][idx]) != ""
  }

  predicate HasNonEmpty(opts: Labels, lang: string, idx: nat) {
    Has(opts, lang, idx) && opts[lang][idx] != ""
  }

  predicate IsAt(opts: Labels, lang: string, idx: nat, text: string) {
    Has(opts, lang, idx) && opts[lang][idx] == text
  }

  // getEnglish: the English label, even an empty one; without one, some language's non-blank label, or "".
  ghost predicate MayBeEnglish(opts: Labels, idx: nat, out: string) {
    if Has(opts, "en", idx) then out == opts["en"][idx]
    else if out == "" then forall lang :: !HasNonBlank(opts, lang, idx)
    else Trim(out) != "" && exists lang :: IsAt(opts, lang, idx, out)
  }

  method GetEnglish(opts: Labels, idx: nat) returns (out: string)
    ensures MayBeEnglish(opts, idx, out)
  {
    if Has(opts, "en", idx) {
      return opts["en"][idx];
    }
    var done: set<string> := {};
    while done != opts.Keys
      invariant done <= opts.Keys
      invariant forall lang :: lang in done ==> !HasNonBlank(opts, lang, idx)
      decreases |opts.Keys - done|
    {
      var lang :| lang in opts.Keys - done by { SomethingLeft(opts.Keys, done); }
      if HasNonBlank(opts, lang, idx) {
        assert IsAt(opts, lang, idx, opts[lang][idx]);
        return opts[lang][idx];
      }
      Fewer(opts.Keys, done, lang);
      done := done + {lang};
    }
    return "";
  }

  // getByIdx: the label in the language asked for, else in English, else in some language, else "".
  ghost predicate MayBeLabel(opts: Labels, lang: string, idx: nat, out: string) {
    if HasNonEmpty(opts, lang, idx) then out == opts[lang][idx]
    else if HasNonEmpty(opts, "en", idx) then out == opts["en"][idx]
    else if out == "" then forall l :: !HasNonEmpty(opts, l, idx)
    else exists l :: IsAt(opts, l, idx, out)
  }

  method GetByIdx(opts: Labels, lang: string, idx: nat) returns (out: string)
    ensures MayBeLabel(opts, lang, idx, out)
  {
    if HasNonEmpty(opts, lang, idx) {
      return opts[lang][idx];
    }
    if HasNonEmpty(opts, "en", idx) {
      return opts["en"][idx];
    }
    var done: set<string> := {};
    while done != opts.Keys
      invariant done <= opts.Keys
      invariant forall l :: l in done ==> !HasNonEmpty(opts, l, idx)
      decreases |opts.Keys - done|
    {
      var l :| l in opts.Keys - done by { SomethingLeft(opts.Keys, done); }
      if HasNonEmpty(opts, l, idx) {
        assert IsAt(opts, l, idx, opts[l][idx]);
        return opts[l][idx];
      }
      Fewer(opts.Keys, done, l);
      done := done + {l};
    }
    return "";
  }

  // ----- one answer -----

  // A text without a match, or whose match has no label to show, stays as it is.
  ghost predicate MayCanonicalise(key: string -> string, opts: Labels, val: string, out: string) {
    || (exists r: nat :: MayFind(key, opts, val, r) && out != "" && MayBeEnglish(opts, r, out))
    || (out == val && exists r: nat :: MayFind(key, opts, val, r) && MayBeEnglish(opts, r, ""))
    || (out == val && MayFind(key, opts, val, -1))
  }

  ghost predicate MayRelabel(key: string -> string, opts: Labels, lang: string, val: string, out: string) {
    || (exists r: nat :: MayFind(key, opts, val, r) && out != "" && MayBeLabel(opts, lang, r, out))
    || (out == val && exists r: nat :: MayFind(key, opts, val, r) && MayBeLabel(opts, lang, r, ""))
    || (out == val && MayFind(key, opts, val, -1))
  }

  method CanonicaliseText(key: string -> string, opts: Labels, val: string) returns (out: string)
    ensures MayCanonicalise(key, opts, val, out)
  {
    var idx := FindIndex(key, opts, val);
    if idx >= 0 {
      var en := GetEnglish(opts, idx);
      if en != "" {
        return en;
      }
    }
    return val;
  }

  method RelabelText(key: string -> string, opts: Labels, lang: string, val: string) returns (out: string)
    ensures MayRelabel(key, opts, lang, val, out)
  {
    var idx := FindIndex(key, opts, val);
    if idx >= 0 {
      var found := GetByIdx(opts, lang, idx);
      if found != "" {
        return found;
      }
    }
    return val;
  }

  // ----- when the order of the languages does not matter -----

  // No label reads like a label at another index, in any language.
  ghost predicate Unambiguous(key: string -> string, opts: Labels) {
    forall l1, l2, i: nat, j: nat ::
      Has(opts, l1, i) && Has(opts, l2, j) && Same(key, opts[l1][i], opts[l2][j]) ==> i == j
  }

  lemma FindsItsIndex(key: string -> string, opts: Labels, lang: string, k: nat, val: string, r: int)
    requires Unambiguous(key, opts) && Has(opts, lang, k) && Same(key, opts[lang][k], val)
    requires MayFind(key, opts, val, r)
    ensures r == k
  {
    FirstMatchFinds(key, opts[lang], k, val);
    if r != -1 {
      var l :| FoundIn(key, opts, l, val, r);
      assert Has(opts, l, r);
    }
  }

  lemma FirstMatchFinds(key: string -> string, list: seq<string>, k: nat, val: string)
    requires k < |list| && Same(key, list[k], val)
    ensures FirstMatch(key, list, val) < |list|
  {
  }

  // The canonical form is a label of the same option.
  lemma CanonicalKeepsIndex(key: string -> string, opts: Labels, lang: string, k: nat, val: string, out: string)
    requires Unambiguous(key, opts) && Has(opts, lang, k) && Same(key, opts[lang][k], val)
    requires MayCanonicalise(key, opts, val, out)
    ensures exists l :: Has(opts, l, k) && Same(key, opts[l][k], out)
  {
    if out == val {
      assert Has(opts, lang, k) && Same(key, opts[lang][k], out);
    } else {
      var r: nat :| MayFind(key, opts, val, r) && out != "" && MayBeEnglish(opts, r, out);
      FindsItsIndex(key, opts, lang, k, val, r);
      if Has(opts, "en", k) {
        assert Same(key, opts["en"][k], out);
      } else {
        var l :| IsAt(opts, l, k, out);
        assert Has(opts, l, k) && Same(key, opts[l][k], out);
      }
    }
  }

  lemma RelabelFinds(key: string -> string, opts: Labels, lang: string, k: nat, l: string, val: string, out: string)
    requires Unambiguous(key, opts) && Has(opts, l, k) && Same(key, opts[l][k], val)
    requires HasNonEmpty(opts, lang, k) && MayRelabel(key, opts, lang, val, out)
    ensures out == opts[lang][k]
  {
    if MayFind(key, opts, val, -1) {
      FindsItsIndex(key, opts, l, k, val, -1);
    } else if r: nat :| MayFind(key, opts, val, r) && out != "" && MayBeLabel(opts, lang, r, out) {
      FindsItsIndex(key, opts, l, k, val, r);
    } else {
      var r: nat :| MayFind(key, opts, val, r) && MayBeLabel(opts, lang, r, "");
      FindsItsIndex(key, opts, l, k, val, r);
    }
  }

  // An option submitted in a language is exported in that language as the label it has there.
  lemma OptionComesBack(key: string -> string, opts: Labels, lang: string, k: nat, val: string, stored: string, out: string)
    requires Unambiguous(key, opts)
    requires HasNonEmpty(opts, lang, k) && Same(key, opts[lang][k], val)
    requires MayCanonicalise(key, opts, val, stored) && MayRelabel(key, opts, lang, stored, out)
    ensures out == opts[lang][k]
  {
    CanonicalKeepsIndex(key, opts, lang, k, val, stored);
    var l :| Has(opts, l, k) && Same(key, opts[l][k], stored);
    RelabelFinds(key, opts, lang, k, l, stored, out);
  }

  // Every language names the same options, none of them empty, and no two of one language alike.
  ghost predicate Aligned(key: string -> string, opts: Labels, n: nat) {
    && (forall lang :: lang in opts ==> |opts[lang]| == n)
    && (forall lang, i: nat :: Has(opts, lang, i) ==> Trim(opts[lang][i]) != "")
    && (forall lang, i: nat, j: nat :: Has(opts, lang, i) && Has(opts, lang, j) && Same(key, opts[lang][i], opts[lang][j]) ==> i == j)
  }

  ghost predicate AlwaysComesBack(key: string -> string, opts: Labels) {
    forall lang, k: nat, stored, out ::
      Has(opts, lang, k) && MayCanonicalise(key, opts, opts[lang][k], stored) && MayRelabel(key, opts, lang, stored, out)
      ==> out == opts[lang][k]
  }

  // On aligned lists every option of every language comes back, in whatever order the languages are tried, exactly when
  // no label reads like one of another option.
  lemma ComesBackIffUnambiguous(key: string -> string, opts: Labels, n: nat)
    requires Aligned(key, opts, n)
    ensures AlwaysComesBack(key, opts) <==> Unambiguous(key, opts)
  {
    if Unambiguous(key, opts) {
      forall lang, k: nat, stored, out |
        Has(opts, lang, k) && MayCanonicalise(key, opts, opts[lang][k], stored) && MayRelabel(key, opts, lang, stored, out)
        ensures out == opts[lang][k]
      {
        NonBlankIsNonEmpty(opts, lang, k);
        OptionComesBack(key, opts, lang, k, opts[lang][k], stored, out);
      }
    } else {
      var l1, l2, i: nat, j: nat :|
        Has(opts, l1, i) && Has(opts, l2, j) && Same(key, opts[l1][i], opts[l2][j]) && i != j;
      ComesBackWrong(key, opts, n, l1, i, l2, j);
    }
  }

  lemma NonBlankIsNonEmpty(opts: Labels, lang: string, k: nat)
    requires Has(opts, lang, k) && Trim(opts[lang][k]) != ""
    ensures HasNonEmpty(opts, lang, k)
  {
  }

  lemma ComesBackWrong(key: string -> string, opts: Labels, n: nat, l1: string, i: nat, l2: string, j: nat)
    requires Aligned(key, opts, n)
    requires Has(opts, l1, i) && Has(opts, l2, j) && Same(key, opts[l1][i], opts[l2][j]) && i != j
    ensures !AlwaysComesBack(key, opts)
  {
    var val := opts[l1][i];
    FoundAt(key, opts, n, l2, j, val);
    var c := if "en" in opts then "en" else l2;
    var stored := opts[c][j];
    assert IsAt(opts, c, j, stored) && Has(opts, c, j);
    assert MayBeEnglish(opts, j, stored) && stored != "";
    assert MayCanonicalise(key, opts, val, stored);
    FoundAt(key, opts, n, c, j, stored);
    var out := opts[l1][j];
    assert Has(opts, l1, j);
    NonBlankIsNonEmpty(opts, l1, j);
    assert MayBeLabel(opts, l1, j, out);
    assert MayRelabel(key, opts, l1, stored, out);
    assert out != val;
  }

  lemma FoundAt(key: string -> string, opts: Labels, n: nat, lang: string, j: nat, val: string)
    requires Aligned(key, opts, n) && Has(opts, lang, j) && Same(key, opts[lang][j], val)
    ensures MayFind(key, opts, val, j)
  {
    var r := FirstMatch(key, opts[lang], val);
    FirstMatchFinds(key, opts[lang], j, val);
    assert Has(opts, lang, r) && Same(key, opts[lang][r], opts[lang][j]);
    assert FoundIn(key, opts, lang, val, j);
  }

  // ----- independence of the iteration order, idempotence -----

  // Where an option has no English label, the languages that have one for it have the same one.
  ghost predicate OneNonBlank(opts: Labels) {
    forall l1, l2, k: nat :: HasNonBlank(opts, l1, k) && HasNonBlank(opts, l2, k) && !Has(opts, "en", k) ==> opts[l1][k] == opts[l2][k]
  }

  // The stored form is a function of the answer.
  ghost predicate CanonicalIsFunction(key: string -> string, opts: Labels) {
    forall val, a, b :: MayCanonicalise(key, opts, val, a) && MayCanonicalise(key, opts, val, b) ==> a == b
  }

  ghost predicate CanonicalIsIdempotent(key: string -> string, opts: Labels) {
    forall val, once, twice :: MayCanonicalise(key, opts, val, once) && MayCanonicalise(key, opts, once, twice) ==> twice == once
  }

  // The order the languages are tried in does not matter exactly when that is so; then, and only then, storing a stored
  // text again changes nothing.
  lemma CanonicalUnique(key: string -> string, opts: Labels)
    requires Unambiguous(key, opts)
    ensures CanonicalIsFunction(key, opts) <==> OneNonBlank(opts)
    ensures CanonicalIsIdempotent(key, opts) <==> OneNonBlank(opts)
  {
    if OneNonBlank(opts) {
      forall val, a, b | MayCanonicalise(key, opts, val, a) && MayCanonicalise(key, opts, val, b) ensures a == b {
        SameCanonical(key, opts, val, a, b);
      }
      forall val, once, twice | MayCanonicalise(key, opts, val, once) && MayCanonicalise(key, opts, once, twice) ensures twice == once {
        CanonicalAgain(key, opts, val, once, twice);
      }
    } else {
      var l1, l2, k: nat :| HasNonBlank(opts, l1, k) && HasNonBlank(opts, l2, k) && !Has(opts, "en", k) && opts[l1][k] != opts[l2][k];
      NoEnglishNoOrder(key, opts, l1, l2, k);
    }
  }

  lemma SameCanonical(key: string -> string, opts: Labels, val: string, a: string, b: string)
    requires Unambiguous(key, opts) && OneNonBlank(opts)
    requires MayCanonicalise(key, opts, val, a) && MayCanonicalise(key, opts, val, b)
    ensures a == b
  {
    if lang, k: nat :| Has(opts, lang, k) && Same(key, opts[lang][k], val) {
      var x := CanonicalIs(key, opts, lang, k, val, a);
      var y := CanonicalIs(key, opts, lang, k, val, b);
      SameEnglish(opts, k, x, y);
    } else {
      CanonicalOfUnknown(key, opts, val, a);
      CanonicalOfUnknown(key, opts, val, b);
    }
  }

  lemma CanonicalAgain(key: string -> string, opts: Labels, val: string, once: string, twice: string)
    requires Unambiguous(key, opts) && OneNonBlank(opts)
    requires MayCanonicalise(key, opts, val, once) && MayCanonicalise(key, opts, once, twice)
    ensures twice == once
  {
    if lang, k: nat :| Has(opts, lang, k) && Same(key, opts[lang][k], val) {
      CanonicalKeepsIndex(key, opts, lang, k, val, once);
      var l :| Has(opts, l, k) && Same(key, opts[l][k], once);
      var x := CanonicalIs(key, opts, lang, k, val, once);
      var y := CanonicalIs(key, opts, l, k, once, twice);
      SameEnglish(opts, k, x, y);
    } else {
      CanonicalOfUnknown(key, opts, val, once);
      CanonicalOfUnknown(key, opts, once, twice);
    }
  }

  lemma SameEnglish(opts: Labels, k: nat, x: string, y: string)
    requires OneNonBlank(opts) && MayBeEnglish(opts, k, x) && MayBeEnglish(opts, k, y)
    ensures x == y
  {
    if !Has(opts, "en", k) && x != "" {
      var l :| IsAt(opts, l, k, x);
      assert HasNonBlank(opts, l, k);
      if y != "" {
        var m :| IsAt(opts, m, k, y);
        assert HasNonBlank(opts, m, k);
      }
    } else if !Has(opts, "en", k) && y != "" {
      var m :| IsAt(opts, m, k, y);
      assert HasNonBlank(opts, m, k);
    }
  }

  // A text that names option k is stored as a label English may have for it, or as it is where there is none.
  lemma CanonicalIs(key: string -> string, opts: Labels, lang: string, k: nat, val: string, out: string) returns (en: string)
    requires Unambiguous(key, opts) && Has(opts, lang, k) && Same(key, opts[lang][k], val)
    requires MayCanonicalise(key, opts, val, out)
    ensures MayBeEnglish(opts, k, en) && out == if en == "" then val else en
  {
    if MayFind(key, opts, val, -1) {
      FindsItsIndex(key, opts, lang, k, val, -1);
    }
    if r: nat :| MayFind(key, opts, val, r) && out != "" && MayBeEnglish(opts, r, out) {
      FindsItsIndex(key, opts, lang, k, val, r);
      en := out;
    } else {
      var r: nat :| MayFind(key, opts, val, r) && MayBeEnglish(opts, r, "");
      FindsItsIndex(key, opts, lang, k, val, r);
      en := "";
    }
  }

  // Which label that is: the English one, unless it is empty; without one, a non-blank label of the same option in some
  // language. Where there is neither, the text stays.
  lemma StoredInEnglish(key: string -> string, opts: Labels, lang: string, k: nat, val: string, out: string)
    requires Unambiguous(key, opts) && Has(opts, lang, k) && Same(key, opts[lang][k], val)
    requires MayCanonicalise(key, opts, val, out)
    ensures "en" in opts && k < |opts["en"]| ==> out == if opts["en"][k] != "" then opts["en"][k] else val
    ensures !("en" in opts && k < |opts["en"]|) ==>
      || (exists l :: l in opts && k < |opts[l]| && opts[l][k] == out && Trim(out) != "")
      || (out == val && forall l :: l in opts && k < |opts[l]| ==> Trim(opts[l][k]) == "")
  {
    var en := CanonicalIs(key, opts, lang, k, val, out);
    if !Has(opts, "en", k) {
      if en == "" {
        forall l | l in opts && k < |opts[l]| ensures Trim(opts[l][k]) == "" {
          assert !HasNonBlank(opts, l, k);
        }
      } else {
        var l :| IsAt(opts, l, k, en);
        assert l in opts && opts[l][k] == out;
      }
    }
  }

  lemma CanonicalOfUnknown(key: string -> string, opts: Labels, val: string, out: string)
    requires forall lang, k: nat :: Has(opts, lang, k) ==> !Same(key, opts[lang][k], val)
    requires MayCanonicalise(key, opts, val, out)
    ensures out == val
  {
    forall r: nat | MayFind(key, opts, val, r) ensures exists lang :: Has(opts, lang, r) && Same(key, opts[lang][r], val) {
      FoundHas(key, opts, val, r);
    }
  }

  lemma FoundHas(key: string -> string, opts: Labels, val: string, r: nat)
    requires MayFind(key, opts, val, r)
    ensures exists lang :: Has(opts, lang, r) && Same(key, opts[lang][r], val)
  {
    var lang :| FoundIn(key, opts, lang, val, r);
    assert Has(opts, lang, r);
  }

  lemma FoundUnambiguous(key: string -> string, opts: Labels, lang: string, k: nat, val: string)
    requires Unambiguous(key, opts) && Has(opts, lang, k) && Same(key, opts[lang][k], val)
    ensures MayFind(key, opts, val, k)
  {
    var r := FirstMatch(key, opts[lang], val);
    FirstMatchFinds(key, opts[lang], k, val);
    assert Has(opts, lang, r) && Same(key, opts[lang][r], opts[lang][k]);
    assert FoundIn(key, opts, lang, val, k);
  }

  // Two labels and no English one: the text of the one may be stored as either.
  lemma NoEnglishNoOrder(key: string -> string, opts: Labels, l1: string, l2: string, k: nat)
    requires Unambiguous(key, opts)
    requires HasNonBlank(opts, l1, k) && HasNonBlank(opts, l2, k) && !Has(opts, "en", k)
    ensures MayCanonicalise(key, opts, opts[l1][k], opts[l1][k]) && MayCanonicalise(key, opts, opts[l1][k], opts[l2][k])
  {
    FoundUnambiguous(key, opts, l1, k, opts[l1][k]);
    assert IsAt(opts, l1, k, opts[l1][k]) && IsAt(opts, l2, k, opts[l2][k]);
    assert MayBeEnglish(opts, k, opts[l1][k]) && MayBeEnglish(opts, k, opts[l2][k]);
  }

  // One option named in two languages, none of them English.
  ghost predicate TwoLabels(opts: Labels, l1: string, l2: string, x: string, y: string) {
    && opts.Keys == {l1, l2} && l1 != "en" && l2 != "en"
    && opts[l1] == [x] && opts[l2] == [y] && Trim(x) != "" && Trim(y) != ""
  }

  lemma StoredAsEither(key: string -> string, opts: Labels, l1: string, l2: string, x: string, y: string)
    requires TwoLabels(opts, l1, l2, x, y)
    ensures Unambiguous(key, opts) && MayCanonicalise(key, opts, x, x) && MayCanonicalise(key, opts, x, y)
  {
    assert forall lang, k: nat :: Has(opts, lang, k) ==> k == 0;
    NoEnglishNoOrder(key, opts, l1, l2, 0);
  }

  // Asked for in a third language, either may be shown too.
  lemma ShownAsEither(key: string -> string, opts: Labels, l1: string, l2: string, x: string, y: string, lang: string)
    requires TwoLabels(opts, l1, l2, x, y) && lang != l1 && lang != l2
    ensures Unambiguous(key, opts) && MayRelabel(key, opts, lang, x, x) && MayRelabel(key, opts, lang, x, y)
  {
    assert forall l, k: nat :: Has(opts, l, k) ==> k == 0;
    FoundUnambiguous(key, opts, l1, 0, x);
    assert IsAt(opts, l1, 0, x) && IsAt(opts, l2, 0, y);
    assert MayBeLabel(opts, lang, 0, x) && MayBeLabel(opts, lang, 0, y);
  }

  lemma OuiAndJa(opts: Labels)
    requires opts == map["fr" := ["Oui"], "de" := ["Ja"]]
    ensures TwoLabels(opts, "fr", "de", "Oui", "Ja")
  {
    TrimIsTrimmed("Oui");
    TrimIsTrimmed("Ja");
  }

  // For instance, "Oui" may be stored as "Oui" or as "Ja".
  lemma OuiOrJa(key: string -> string, opts: Labels)
    requires opts == map["fr" := ["Oui"], "de" := ["Ja"]]
    ensures Unambiguous(key, opts) && MayCanonicalise(key, opts, "Oui", "Oui") && MayCanonicalise(key, opts, "Oui", "Ja")
  {
    OuiAndJa(opts);
    StoredAsEither(key, opts, "fr", "de", "Oui", "Ja");
  }

  // And shown in Chinese as "Oui" or as "Ja".
  lemma OuiOrJaInChinese(key: string -> string, opts: Labels)
    requires opts == map["fr" := ["Oui"], "de" := ["Ja"]]
    ensures MayRelabel(key, opts, "zh", "Oui", "Oui") && MayRelabel(key, opts, "zh", "Oui", "Ja")
  {
    OuiAndJa(opts);
    ShownAsEither(key, opts, "fr", "de", "Oui", "Ja", "zh");
  }

  // Where neither the language asked for nor English has a label, the languages that have one have the same one.
  ghost predicate OneNonEmpty(opts: Labels, lang: string) {
    forall l1, l2, k: nat ::
      HasNonEmpty(opts, l1, k) && HasNonEmpty(opts, l2, k) && !HasNonEmpty(opts, lang, k) && !HasNonEmpty(opts, "en", k)
      ==> opts[l1][k] == opts[l2][k]
  }

  ghost predicate RelabelIsFunction(key: string -> string, opts: Labels, lang: string) {
    forall val, a, b :: MayRelabel(key, opts, lang, val, a) && MayRelabel(key, opts, lang, val, b) ==> a == b
  }

  // What is shown does not depend on the order the languages are tried in exactly when that is so.
  lemma RelabelUnique(key: string -> string, opts: Labels, lang: string)
    requires Unambiguous(key, opts)
    ensures RelabelIsFunction(key, opts, lang) <==> OneNonEmpty(opts, lang)
  {
    if OneNonEmpty(opts, lang) {
      forall val, a, b | MayRelabel(key, opts, lang, val, a) && MayRelabel(key, opts, lang, val, b) ensures a == b {
        SameRelabelled(key, opts, lang, val, a, b);
      }
    } else {
      var l1, l2, k: nat :|
        HasNonEmpty(opts, l1, k) && HasNonEmpty(opts, l2, k) && !HasNonEmpty(opts, lang, k) && !HasNonEmpty(opts, "en", k)
        && opts[l1][k] != opts[l2][k];
      FoundUnambiguous(key, opts, l1, k, opts[l1][k]);
      assert IsAt(opts, l1, k, opts[l1][k]) && IsAt(opts, l2, k, opts[l2][k]);
      assert MayBeLabel(opts, lang, k, opts[l1][k]) && MayBeLabel(opts, lang, k, opts[l2][k]);
      assert MayRelabel(key, opts, lang, opts[l1][k], opts[l1][k]) && MayRelabel(key, opts, lang, opts[l1][k], opts[l2][k]);
    }
  }

  lemma SameRelabelled(key: string -> string, opts: Labels, lang: string, val: string, a: string, b: string)
    requires Unambiguous(key, opts) && OneNonEmpty(opts, lang)
    requires MayRelabel(key, opts, lang, val, a) && MayRelabel(key, opts, lang, val, b)
    ensures a == b
  {
    if l, k: nat :| Has(opts, l, k) && Same(key, opts[l][k], val) {
      var x := RelabelIs(key, opts, lang, l, k, val, a);
      var y := RelabelIs(key, opts, lang, l, k, val, b);
      SameLabel(opts, lang, k, x, y);
    } else {
      RelabelOfUnknown(key, opts, lang, val, a);
      RelabelOfUnknown(key, opts, lang, val, b);
    }
  }

  lemma RelabelIs(key: string -> string, opts: Labels, lang: string, l: string, k: nat, val: string, out: string) returns (shown: string)
    requires Unambiguous(key, opts) && Has(opts, l, k) && Same(key, opts[l][k], val)
    requires MayRelabel(key, opts, lang, val, out)
    ensures MayBeLabel(opts, lang, k, shown) && out == if shown == "" then val else shown
  {
    if MayFind(key, opts, val, -1) {
      FindsItsIndex(key, opts, l, k, val, -1);
    }
    if r: nat :| MayFind(key, opts, val, r) && out != "" && MayBeLabel(opts, lang, r, out) {
      FindsItsIndex(key, opts, l, k, val, r);
      shown := out;
    } else {
      var r: nat :| MayFind(key, opts, val, r) && MayBeLabel(opts, lang, r, "");
      FindsItsIndex(key, opts, l, k, val, r);
      shown := "";
    }
  }

  // The label in the language asked for, else the English one, else some language's; empty labels do not count. Where there
  // is none at all, the text stays.
  lemma ShownInLanguage(key: string -> string, opts: Labels, lang: string, l: string, k: nat, val: string, out: string)
    requires Unambiguous(key, opts) && Has(opts, l, k) && Same(key, opts[l][k], val)
    requires MayRelabel(key, opts, lang, val, out)
    ensures
      var own, english := lang in opts && k < |opts[lang]| && opts[lang][k] != "", "en" in opts && k < |opts["en"]| && opts["en"][k] != "";
      && (own ==> out == opts[lang][k])
      && (!own && english ==> out == opts["en"][k])
      && (!own && !english ==>
           || (exists m :: m in opts && k < |opts[m]| && opts[m][k] == out && out != "")
           || (out == val && forall m :: m in opts && k < |opts[m]| ==> opts[m][k] == ""))
  {
    var shown := RelabelIs(key, opts, lang, l, k, val, out);
    if !HasNonEmpty(opts, lang, k) && !HasNonEmpty(opts, "en", k) {
      if shown == "" {
        forall m | m in opts && k < |opts[m]| ensures opts[m][k] == "" {
          assert !HasNonEmpty(opts, m, k);
        }
      } else {
        var m :| IsAt(opts, m, k, shown);
        assert m in opts && opts[m][k] == out;
      }
    }
  }

  // No document but a text, a list of texts or null is translated, and none without options.
  lemma OtherDocumentsStay(key: string -> string, options: Option<Labels>, raw: Json, out: Json)
    requires MayNormalize(key, options, raw, out)
    ensures options.None? || raw.Other? || raw.NoJson? ==> out == raw
    ensures raw.Text? ==> out.Text?
    ensures raw.Texts? ==> out.Texts? && |out.texts| == |raw.texts|
  {
  }

  lemma RelabelOfUnknown(key: string -> string, opts: Labels, lang: string, val: string, out: string)
    requires forall l, k: nat :: Has(opts, l, k) ==> !Same(key, opts[l][k], val)
    requires MayRelabel(key, opts, lang, val, out)
    ensures out == val
  {
    forall r: nat | MayFind(key, opts, val, r) ensures exists l :: Has(opts, l, r) && Same(key, opts[l][r], val) {
      FoundHas(key, opts, val, r);
    }
  }

  lemma SameLabel(opts: Labels, lang: string, k: nat, x: string, y: string)
    requires OneNonEmpty(opts, lang) && MayBeLabel(opts, lang, k, x) && MayBeLabel(opts, lang, k, y)
    ensures x == y
  {
    if !HasNonEmpty(opts, lang, k) && !HasNonEmpty(opts, "en", k) {
      if x != "" {
        var l :| IsAt(opts, l, k, x);
        assert HasNonEmpty(opts, l, k);
      }
      if y != "" {
        var m :| IsAt(opts, m, k, y);
        assert HasNonEmpty(opts, m, k);
      }
    }
  }

  // As wired the submitted text is stored as it came, and the export alone has to find the option.
  ghost predicate AlwaysRecognised(key: string -> string, opts: Labels) {
    forall lang, k: nat, out :: Has(opts, lang, k) && MayRelabel(key, opts, lang, opts[lang][k], out) ==> out == opts[lang][k]
  }

  // It does, in every language and every order, exactly under the same condition.
  lemma RecognisedIffUnambiguous(key: string -> string, opts: Labels, n: nat)
    requires Aligned(key, opts, n)
    ensures AlwaysRecognised(key, opts) <==> Unambiguous(key, opts)
  {
    if Unambiguous(key, opts) {
      forall lang, k: nat, out | Has(opts, lang, k) && MayRelabel(key, opts, lang, opts[lang][k], out) ensures out == opts[lang][k] {
        NonBlankIsNonEmpty(opts, lang, k);
        RelabelFinds(key, opts, lang, k, lang, opts[lang][k], out);
      }
    } else {
      var l1, l2, i: nat, j: nat :|
        Has(opts, l1, i) && Has(opts, l2, j) && Same(key, opts[l1][i], opts[l2][j]) && i != j;
      FoundAt(key, opts, n, l2, j, opts[l1][i]);
      assert Has(opts, l1, j);
      NonBlankIsNonEmpty(opts, l1, j);
      assert MayBeLabel(opts, l1, j, opts[l1][j]);
      assert MayRelabel(key, opts, l1, opts[l1][i], opts[l1][j]);
    }
  }

  // ----- stored answers -----

  // JSON null decodes to the empty text, and stays null when nothing is found for it.
  ghost predicate MayNormalize(key: string -> string, options: Option<Labels>, raw: Json, out: Json) {
    if options.None? then out == raw
    else
      match raw
      case Text(v) => out.Text? && MayCanonicalise(key, options.value, v, out.text)
      case Texts(vs) => out.Texts? && EachCanonical(key, options.value, vs, out.texts)
      case Null => (out == Null && MayCanonicalise(key, options.value, "", ""))
                || (out.Text? && out.text != "" && MayCanonicalise(key, options.value, "", out.text))
      case _ => out == raw
  }

  ghost predicate EachCanonical(key: string -> string, opts: Labels, vals: seq<string>, outs: seq<string>) {
    |outs| == |vals| && forall i :: 0 <= i < |vals| ==> MayCanonicalise(key, opts, vals[i], outs[i])
  }

  ghost predicate EachRelabelled(key: string -> string, opts: Labels, lang: string, vals: seq<string>, outs: seq<string>) {
    |outs| == |vals| && forall i :: 0 <= i < |vals| ==> MayRelabel(key, opts, lang, vals[i], outs[i])
  }

  method NormalizeRawToEnglish(key: string -> string, options: Option<Labels>, raw: Json) returns (out: Json)
    ensures MayNormalize(key, options, raw, out)
  {
    if options.None? {
      return raw;
    }
    match raw {
      case Text(v) =>
        var text := CanonicaliseText(key, options.value, v);
        out := Text(text);
      case Null =>
        var text := CanonicaliseText(key, options.value, "");
        out := if text == "" then Null else Text(text);
      case Texts(vs) =>
        var texts: seq<string> := [];
        for i := 0 to |vs|
          invariant |texts| == i
          invariant forall j :: 0 <= j < i ==> MayCanonicalise(key, options.value, vs[j], texts[j])
        {
          var text := CanonicaliseText(key, options.value, vs[i]);
          texts := texts + [text];
        }
        out := Texts(texts);
      case _ =>
        out := raw;
    }
  }

  ghost predicate StoredIsFunction(key: string -> string, opts: Labels) {
    forall raw, a, b :: MayNormalize(key, Some(opts), raw, a) && MayNormalize(key, Some(opts), raw, b) ==> a == b
  }

  ghost predicate StoredIsIdempotent(key: string -> string, opts: Labels) {
    forall raw, once, twice ::
      MayNormalize(key, Some(opts), raw, once) && MayNormalize(key, Some(opts), once, twice) ==> twice == once
  }

  // The same for whole answers, lists and null included: what is stored is a function of the answer, and storing it
  // again changes nothing, exactly when no option without an English label has two labels.
  lemma CanonicalTwice(key: string -> string, opts: Labels)
    requires Unambiguous(key, opts)
    ensures StoredIsFunction(key, opts) <==> OneNonBlank(opts)
    ensures StoredIsIdempotent(key, opts) <==> OneNonBlank(opts)
  {
    CanonicalUnique(key, opts);
    if OneNonBlank(opts) {
      forall raw, a, b | MayNormalize(key, Some(opts), raw, a) && MayNormalize(key, Some(opts), raw, b) ensures a == b {
        SameStored(key, opts, raw, a, b);
      }
      forall raw, once, twice | MayNormalize(key, Some(opts), raw, once) && MayNormalize(key, Some(opts), once, twice)
        ensures twice == once
      {
        StoredAgain(key, opts, raw, once, twice);
      }
    } else {
      var l1, l2, k: nat :| HasNonBlank(opts, l1, k) && HasNonBlank(opts, l2, k) && !Has(opts, "en", k) && opts[l1][k] != opts[l2][k];
      NoEnglishNoOrder(key, opts, l1, l2, k);
      assert MayNormalize(key, Some(opts), Text(opts[l1][k]), Text(opts[l1][k]));
      assert MayNormalize(key, Some(opts), Text(opts[l1][k]), Text(opts[l2][k]));
    }
  }

  lemma SameStored(key: string -> string, opts: Labels, raw: Json, a: Json, b: Json)
    requires Unambiguous(key, opts) && OneNonBlank(opts)
    requires MayNormalize(key, Some(opts), raw, a) && MayNormalize(key, Some(opts), raw, b)
    ensures a == b
  {
    match raw
    case Text(v) => SameCanonical(key, opts, v, a.text, b.text);
    case Texts(vs) =>
      forall i | 0 <= i < |vs| ensures a.texts[i] == b.texts[i] {
        SameCanonical(key, opts, vs[i], a.texts[i], b.texts[i]);
      }
    case Null =>
      SameCanonical(key, opts, "", if a == Null then "" else a.text, if b == Null then "" else b.text);
    case _ =>
  }

  lemma StoredAgain(key: string -> string, opts: Labels, raw: Json, once: Json, twice: Json)
    requires Unambiguous(key, opts) && OneNonBlank(opts)
    requires MayNormalize(key, Some(opts), raw, once) && MayNormalize(key, Some(opts), once, twice)
    ensures twice == once
  {
    match raw
    case Text(v) => CanonicalAgain(key, opts, v, once.text, twice.text);
    case Texts(vs) =>
      forall i | 0 <= i < |vs| ensures twice.texts[i] == once.texts[i] {
        CanonicalAgain(key, opts, vs[i], once.texts[i], twice.texts[i]);
      }
    case Null =>
      if once == Null {
        SameStored(key, opts, Null, once, twice);
      } else {
        CanonicalAgain(key, opts, "", once.text, twice.text);
      }
    case _ =>
  }

  // What mapRawJSONToLang may answer; "" leaves the choice to its caller.
  ghost predicate MayMapTo(key: string -> string, opts: Labels, raw: Json, lang: string, out: string) {
    match raw
    case Text(v) => MayRelabel(key, opts, lang, v, out)
    case Null => MayRelabel(key, opts, lang, "", out)
    case Texts(vs) => exists outs :: EachRelabelled(key, opts, lang, vs, outs) && out == JoinWith(outs, ", ")
    case _ => out == ""
  }

  method MapRawJSONToLang(key: string -> string, opts: Labels, raw: Json, lang: string) returns (out: string)
    ensures MayMapTo(key, opts, raw, lang, out)
  {
    match raw {
      case Text(v) =>
        out := RelabelText(key, opts, lang, v);
      case Null =>
        out := RelabelText(key, opts, lang, "");
      case Texts(vs) =>
        var outs: seq<string> := [];
        for i := 0 to |vs|
          invariant |outs| == i
          invariant forall j :: 0 <= j < i ==> MayRelabel(key, opts, lang, vs[j], outs[j])
        {
          var text := RelabelText(key, opts, lang, vs[i]);
          outs := outs + [text];
        }
        out := JoinWith(outs, ", ");
        assert EachRelabelled(key, opts, lang, vs, outs);
      case _ =>
        out := "";
    }
  }

  // Lists are stored and shown text by text, and null as the empty text, which stays null if nothing else becomes of it.
  lemma TextByText(key: string -> string, opts: Labels, vs: seq<string>, out: Json)
    ensures MayNormalize(key, Some(opts), Texts(vs), out)
      <==> out.Texts? && |out.texts| == |vs|
           && forall i :: 0 <= i < |vs| ==> MayNormalize(key, Some(opts), Text(vs[i]), Text(out.texts[i]))
    ensures MayNormalize(key, Some(opts), Null, out)
      <==> (out.Null? && MayNormalize(key, Some(opts), Text(""), Text("")))
           || (out.Text? && out.text != "" && MayNormalize(key, Some(opts), Text(""), out))
  {
  }

  lemma ShownTextByText(key: string -> string, opts: Labels, lang: string, vs: seq<string>, out: string)
    ensures MayMapTo(key, opts, Texts(vs), lang, out) ==>
      exists parts: seq<string> :: |parts| == |vs| && out == JoinWith(parts, ", ")
                                   && forall i :: 0 <= i < |vs| ==> MayMapTo(key, opts, Text(vs[i]), lang, parts[i])
    ensures MayMapTo(key, opts, Null, lang, out) <==> MayMapTo(key, opts, Text(""), lang, out)
    ensures MayMapTo(key, opts, NoJson, lang, out) <==> out == ""
  {
    if MayMapTo(key, opts, Texts(vs), lang, out) {
      var parts :| EachRelabelled(key, opts, lang, vs, parts) && out == JoinWith(parts, ", ");
      assert forall i :: 0 <= i < |vs| ==> MayMapTo(key, opts, Text(vs[i]), lang, parts[i]);
    }
  }

  ghost predicate ShownIsFunction(key: string -> string, opts: Labels, lang: string) {
    forall raw, a, b :: MayMapTo(key, opts, raw, lang, a) && MayMapTo(key, opts, raw, lang, b) ==> a == b
  }

  // And what is shown of a whole answer is a function of what is stored exactly under the condition for one text.
  lemma ShownUnique(key: string -> string, opts: Labels, lang: string)
    requires Unambiguous(key, opts)
    ensures ShownIsFunction(key, opts, lang) <==> OneNonEmpty(opts, lang)
  {
    RelabelUnique(key, opts, lang);
    if OneNonEmpty(opts, lang) {
      forall raw, a, b | MayMapTo(key, opts, raw, lang, a) && MayMapTo(key, opts, raw, lang, b) ensures a == b {
        if raw.Texts? {
          var xs :| EachRelabelled(key, opts, lang, raw.texts, xs) && a == JoinWith(xs, ", ");
          var ys :| EachRelabelled(key, opts, lang, raw.texts, ys) && b == JoinWith(ys, ", ");
          assert xs == ys;
        }
      }
    } else {
      var val, a, b :| MayRelabel(key, opts, lang, val, a) && MayRelabel(key, opts, lang, val, b) && a != b;
      assert MayMapTo(key, opts, Text(val), lang, a) && MayMapTo(key, opts, Text(val), lang, b);
    }
  }

  ghost predicate AreOptions(key: string -> string, opts: Labels, lang: string, ks: seq<nat>, vals: seq<string>) {
    |vals| == |ks| && forall i :: 0 <= i < |ks| ==> HasNonEmpty(opts, lang, ks[i]) && Same(key, opts[lang][ks[i]], vals[i])
  }

  function LabelsAt(opts: Labels, lang: string, ks: seq<nat>): seq<string> {
    seq(|ks|, i requires 0 <= i < |ks| => LabelAt(opts, lang, ks[i]))
  }

  function LabelAt(opts: Labels, lang: string, k: nat): string {
    if Has(opts, lang, k) then opts[lang][k] else ""
  }

  // The same for multiple choice: every option chosen comes back, in the order chosen.
  lemma OptionsComeBack(key: string -> string, opts: Labels, lang: string, ks: seq<nat>, vals: seq<string>, stored: Json, out: string)
    requires Unambiguous(key, opts) && AreOptions(key, opts, lang, ks, vals)
    requires MayNormalize(key, Some(opts), Texts(vals), stored) && MayMapTo(key, opts, stored, lang, out)
    ensures out == JoinWith(LabelsAt(opts, lang, ks), ", ")
  {
    var outs :| EachRelabelled(key, opts, lang, stored.texts, outs) && out == JoinWith(outs, ", ");
    forall i | 0 <= i < |ks| ensures outs[i] == LabelAt(opts, lang, ks[i]) {
      OptionComesBack(key, opts, lang, ks[i], vals[i], stored.texts[i], outs[i]);
    }
    assert outs == LabelsAt(opts, lang, ks);
  }

  // Several options stored as they came, in the language they were chosen in.
  lemma OptionsRecognised(key: string -> string, opts: Labels, lang: string, ks: seq<nat>, vals: seq<string>, out: string)
    requires Unambiguous(key, opts) && AreOptions(key, opts, lang, ks, vals)
    requires MayMapTo(key, opts, Texts(vals), lang, out)
    ensures out == JoinWith(LabelsAt(opts, lang, ks), ", ")
  {
    var outs :| EachRelabelled(key, opts, lang, vals, outs) && out == JoinWith(outs, ", ");
    forall i | 0 <= i < |ks| ensures outs[i] == LabelAt(opts, lang, ks[i]) {
      RelabelFinds(key, opts, lang, ks[i], lang, vals[i], outs[i]);
    }
    assert outs == LabelsAt(opts, lang, ks);
  }
}
