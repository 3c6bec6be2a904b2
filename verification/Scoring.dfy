// Answers become responses, and responses become labels: internal/services/response_service.go and valueToLabel of
// internal/services/export_service.go.
module Scoring {
  import opened Wrappers
  import opened Survey
  import opened Text
  import opened Decimal
  import opened Options
  import opened AlphaLaws
  import opened Catalogue
  import opened Filtering
  import MemoryStore

  // number is what a JSON number in raw converts to as an integer; it says nothing about any other document.
  datatype Answer = Answer(itemId: string, rawInt: Option<int>, raw: Json, number: Option<int>)

  // JSON null decodes as the number 0.
  function AnswerNumber(ans: Answer): Option<int> {
    if ans.rawInt.Some? then ans.rawInt
    else
      match ans.raw
      case NoJson => None
      case Null => Some(0)
      case Text(s) => Atoi64(Trim(s))
      case Texts(_) => None
      case Other(_) => ans.number
  }

  predicate IsLikert(b: Body) {
    b.itemType == "" || b.itemType == "likert"
  }

  predicate IsNumeric(b: Body) {
    b.itemType == "rating" || b.itemType == "slider" || b.itemType == "numeric"
  }

  // An upper bound of 0 is none; both bounds 0 are none either.
  predicate InBounds(b: Body, n: int) {
    (b.min == 0 && b.max == 0) || (b.min <= n && (b.max == 0 || n <= b.max))
  }

  predicate Accepted(b: Body, points: int, n: Option<int>) {
    n.Some? && ((IsLikert(b) && 1 <= n.value <= points) || (IsNumeric(b) && InBounds(b, n.value)))
  }

  // What buildResponseForItem may build.
  ghost predicate IsResponseTo(key: string -> string, ans: Answer, b: Body, points: int, at: int, pid: string, r: Response) {
    var n := AnswerNumber(ans);
    && r.participantId == pid && r.itemId == ans.itemId && r.submittedAt == at
    && (Accepted(b, points, n) ==>
          r.rawValue == n.value
          && r.scoreValue == if IsLikert(b) && b.reverseScored then ReverseScore(n.value, points) else n.value)
    && (!Accepted(b, points, n) ==> r.rawValue == 0 && r.scoreValue == 0)
    && (ans.raw == NoJson ==> r.rawJson == if n.Some? then Other(Printed(n.value)) else NoJson)
    && (ans.raw != NoJson && (IsLikert(b) || IsNumeric(b)) ==> r.rawJson == ans.raw)
    && (ans.raw != NoJson && !IsLikert(b) && !IsNumeric(b) ==> MayNormalize(key, b.options, ans.raw, r.rawJson))
  }

  method BuildResponseForItem(key: string -> string, ans: Answer, b: Body, points: int, at: int, pid: string)
    returns (r: Response)
    ensures IsResponseTo(key, ans, b, points, at, pid, r)
  {
    var n := AnswerNumber(ans);
    r := Response(pid, ans.itemId, 0, 0, at, NoJson);
    if IsLikert(b) {
      if n.Some? {
        if 1 <= n.value <= points {
          var score := n.value;
          if b.reverseScored {
            score := ReverseScore(score, points);
          }
          r := r.(rawValue := n.value, scoreValue := score);
        } else {
          r := r.(rawJson := Other(Printed(n.value)));
        }
      }
    } else if IsNumeric(b) {
      if n.Some? {
        if InBounds(b, n.value) {
          r := r.(rawValue := n.value, scoreValue := n.value);
        } else {
          r := r.(rawJson := Other(Printed(n.value)));
        }
      }
    }
    if ans.raw != NoJson {
      if !IsLikert(b) && !IsNumeric(b) {
        var stored := NormalizeRawToEnglish(key, b.options, ans.raw);
        r := r.(rawJson := stored);
      } else {
        r := r.(rawJson := ans.raw);
      }
    } else if n.Some? {
      r := r.(rawJson := Other(Printed(n.value)));
    }
  }

  // A Likert score is 0 or a point of the scale, and 0 exactly when the answer was none. A point scores itself, or counted
  // from the other end if the item is reversed.
  lemma LikertScores(key: string -> string, ans: Answer, b: Body, points: int, at: int, pid: string, r: Response)
    requires b.itemType in {"", "likert"} && IsResponseTo(key, ans, b, points, at, pid, r)
    ensures r.scoreValue == 0 || 1 <= r.scoreValue <= points
    ensures r.scoreValue == 0 <==> !(exists n :: AnswerNumber(ans) == Some(n) && 1 <= n <= points)
    ensures b.reverseScored && points >= 2 && r.scoreValue != 0 ==> ReverseScore(r.scoreValue, points) == r.rawValue
    ensures forall n :: AnswerNumber(ans) == Some(n) && 1 <= n <= points ==>
      r.rawValue == n && (!b.reverseScored ==> r.scoreValue == n) && (b.reverseScored && points >= 2 ==> r.scoreValue == points + 1 - n)
  {
    var n := AnswerNumber(ans);
    if n.Some? && 1 <= n.value <= points {
      assert Accepted(b, points, n);
    }
  }

  // A number within the bounds is scored as it is, any other one scores 0; a bound of 0 above, or 0 on both sides, is none.
  lemma NumericScores(key: string -> string, ans: Answer, b: Body, points: int, at: int, pid: string, r: Response, n: int)
    requires b.itemType in {"rating", "slider", "numeric"} && AnswerNumber(ans) == Some(n)
    requires IsResponseTo(key, ans, b, points, at, pid, r)
    ensures r.rawValue == r.scoreValue && r.rawValue in {n, 0}
    ensures b.min <= n <= b.max || (b.max == 0 && b.min <= n) || b.min == b.max == 0 ==> r.rawValue == n
    ensures b.min != 0 && n < b.min ==> r.rawValue == 0
    ensures b.max != 0 && (n > b.max || n < b.min) ==> r.rawValue == 0
  {
    if InBounds(b, n) {
      assert Accepted(b, points, Some(n));
    }
  }

  // An answer to any other kind of item is not scored, nor is one without a number.
  lemma ChoicesScoreNothing(key: string -> string, ans: Answer, b: Body, points: int, at: int, pid: string, r: Response)
    requires IsResponseTo(key, ans, b, points, at, pid, r)
    requires b.itemType !in {"", "likert", "rating", "slider", "numeric"} || AnswerNumber(ans).None?
    ensures r.rawValue == 0 && r.scoreValue == 0
  {
  }

  // A document is kept as it came by every item that is scored; without one, the number is kept as a numeral.
  lemma DocumentKept(key: string -> string, ans: Answer, b: Body, points: int, at: int, pid: string, r: Response)
    requires IsResponseTo(key, ans, b, points, at, pid, r)
    ensures r.participantId == pid && r.itemId == ans.itemId && r.submittedAt == at
    ensures ans.raw != NoJson && (b.itemType in {"", "likert", "rating", "slider", "numeric"} || b.options.None?) ==> r.rawJson == ans.raw
    ensures ans.raw == NoJson && ans.rawInt.None? ==> r.rawJson == NoJson
    ensures forall n: nat :: ans.raw == NoJson && ans.rawInt == Some(n) ==> r.rawJson == Other(Numeral(n))
  {
  }

  // An integer given as one, or spelt in a text with or without blanks around it, is the answer's number; a list of texts
  // has none.
  lemma NumbersRead(ans: Answer, n: int, left: string, right: string)
    requires MIN_INT64 < n <= MAX_INT64 && left in {"", " "} && right in {"", " "}
    ensures ans.rawInt == Some(n) ==> AnswerNumber(ans) == Some(n)
    ensures ans.rawInt.None? && ans.raw == Text(left + Itoa(n) + right) ==> AnswerNumber(ans) == Some(n)
    ensures ans.rawInt.None? && (ans.raw.NoJson? || ans.raw.Texts?) ==> AnswerNumber(ans).None?
  {
    ItoaTrimmed(n);
    TrimPadded(Itoa(n), left, right);
    DenotedByItoa(n);
  }

  // ----- submission -----

  // What a submission needs to know of its scale.
  datatype ScaleInfo = ScaleInfo(points: int, turnstile: bool, e2ee: bool)

  // internal/api/response_service_adapter.go hands the item over without its options and bounds.
  function Seen(b: Body): Body {
    Body(b.reverseScored, None, b.itemType, None, None, 0, 0, 0, false, None, false)
  }

  // So as wired no choice is put into English and no number is out of an item's bounds; a Likert number off the scale
  // still is not scored.
  lemma SeenForgets(key: string -> string, ans: Answer, b: Body, points: int, at: int, pid: string, r: Response)
    requires IsResponseTo(key, ans, Seen(b), points, at, pid, r)
    ensures ans.raw != NoJson ==> r.rawJson == ans.raw
    ensures IsNumeric(b) && AnswerNumber(ans).Some? ==> r.rawValue == r.scoreValue == AnswerNumber(ans).value
    ensures IsLikert(b) && AnswerNumber(ans).Some? && !(1 <= AnswerNumber(ans).value <= points) ==> r.rawValue == r.scoreValue == 0
  {
  }

  predicate Known(rows: map<string, Item>, ans: Answer) {
    ans.itemId != "" && ans.itemId in rows
  }

  // The answers that name an item.
  function KnownAnswers(rows: map<string, Item>, answers: seq<Answer>): (r: seq<Answer>)
    ensures forall ans :: ans in r ==> Known(rows, ans)
  {
    if answers == [] then []
    else
      var n := |answers| - 1;
      KnownAnswers(rows, answers[..n]) + if Known(rows, answers[n]) then [answers[n]] else []
  }

  lemma {:induction false} KnownAnswersPicked(rows: map<string, Item>, answers: seq<Answer>, keep: Answer -> bool) returns (at: seq<int>)
    requires forall ans :: keep(ans) <==> ans.itemId != "" && ans.itemId in rows
    ensures Picks(answers, keep, KnownAnswers(rows, answers), at)
  {
    if answers == [] {
      at := [];
    } else {
      var n := |answers| - 1;
      var before := KnownAnswersPicked(rows, answers[..n], keep);
      at := PicksOneMore(answers, keep, KnownAnswers(rows, answers[..n]), before);
      assert KnownAnswers(rows, answers[..n]) + [] == KnownAnswers(rows, answers[..n]);
    }
  }

  ghost predicate AreResponsesTo(key: string -> string, rows: map<string, Item>, known: seq<Answer>, points: int, at: int,
                                 pid: string, rs: seq<Response>)
  {
    |rs| == |known| && forall i :: 0 <= i < |known| ==>
      known[i].itemId in rows && IsResponseTo(key, known[i], Seen(rows[known[i].itemId].body), points, at, pid, rs[i])
  }

  method ProcessBulkResponses(store: MemoryStore.Store, key: string -> string, scale: Option<ScaleInfo>, verified: bool,
                              pid: string, email: string, answers: seq<Answer>, at: int)
    returns (r: Result<nat, string>, ghost rs: seq<Response>)
    requires store.Valid()
    modifies store`responses, store`participants
    ensures store.Valid()
    ensures r.Ok? <==> scale.Some? && (scale.value.turnstile ==> verified) && !scale.value.e2ee
    ensures r.Err? ==> store.Abs() == old(store.Abs())
    ensures r.Ok? ==> r.value == |rs|
    ensures r.Ok? ==> AreResponsesTo(key, store.rows, KnownAnswers(store.rows, answers), scale.value.points, at, pid, rs)
    ensures r.Ok? ==> Enabled(old(store.Abs()), SubmitOp(pid, email, rs))
    ensures r.Ok? ==> store.Abs() == Apply(old(store.Abs()), SubmitOp(pid, email, rs))
    ensures r.Ok? ==> store.participants == old(store.participants)[pid := email] && store.responses == old(store.responses) + rs
    ensures r.Err? ==>
      r.error == if scale.None? then "scale not found"
                 else if scale.value.turnstile && !verified then "turnstile verification failed"
                 else "plaintext submissions are disabled for E2EE projects"
  {
    rs := [];
    if scale.None? {
      return Err("scale not found"), [];
    }
    if scale.value.turnstile && !verified {
      return Err("turnstile verification failed"), [];
    }
    if scale.value.e2ee {
      return Err("plaintext submissions are disabled for E2EE projects"), [];
    }
    store.AddParticipant(pid, email);
    var responses := BuildResponses(store, key, scale.value.points, pid, answers, at);
    rs := responses;
    store.AddResponses(responses);
    return Ok(|responses|), rs;
  }

  method BuildResponses(store: MemoryStore.Store, key: string -> string, points: int, pid: string, answers: seq<Answer>, at: int)
    returns (rs: seq<Response>)
    requires store.Valid()
    ensures AreResponsesTo(key, store.rows, KnownAnswers(store.rows, answers), points, at, pid, rs)
    ensures forall r :: r in rs ==> r.participantId == pid && r.itemId in store.rows
  {
    rs := [];
    for i := 0 to |answers|
      invariant AreResponsesTo(key, store.rows, KnownAnswers(store.rows, answers[..i]), points, at, pid, rs)
      invariant forall r :: r in rs ==> r.participantId == pid && r.itemId in store.rows
    {
      var ans := answers[i];
      assert answers[..i + 1][..i] == answers[..i];
      if ans.itemId != "" && ans.itemId in store.items {
        var resp := BuildResponseForItem(key, ans, Seen(store.items[ans.itemId].body), points, at, pid);
        rs := rs + [resp];
      }
    }
    assert answers[..|answers|] == answers;
  }

  // ----- labels -----

  function LabelOr(labels: Option<Labels>, lang: string, idx: nat, otherwise: string): string {
    if labels.Some? && HasNonEmpty(labels.value, lang, idx) then labels.value[lang][idx]
    else if labels.Some? && HasNonEmpty(labels.value, "en", idx) then labels.value["en"][idx]
    else otherwise
  }

  // What valueToLabel may answer. render is the JSON text of a stored answer.
  ghost predicate MayShow(
    key: string -> string, render: Json -> string, b: Body, scaleLabels: Option<Labels>, r: Response, lang: string, out: string)
  {
    if IsLikert(b) && r.rawValue > 0 then
      out == LabelOr(b.likertLabels, lang, r.rawValue - 1, LabelOr(scaleLabels, lang, r.rawValue - 1, Itoa(r.rawValue)))
    else
      || (b.options.Some? && r.rawJson != NoJson && out != "" && MayMapTo(key, b.options.value, r.rawJson, lang, out))
      || ((b.options.Some? && r.rawJson != NoJson ==> MayMapTo(key, b.options.value, r.rawJson, lang, ""))
          && out == if IsNumeric(b) then Itoa(if r.rawValue != 0 then r.rawValue else r.scoreValue) else render(r.rawJson))
  }

  method ValueToLabel(
    key: string -> string, render: Json -> string, b: Body, scaleLabels: Option<Labels>, r: Response, lang: string)
    returns (out: string)
    requires MIN_INT64 <= r.rawValue <= MAX_INT64 && MIN_INT64 <= r.scoreValue <= MAX_INT64
    ensures MayShow(key, render, b, scaleLabels, r, lang, out)
  {
    if IsLikert(b) && r.rawValue > 0 {
      var idx := r.rawValue - 1;
      if b.likertLabels.Some? {
        if HasNonEmpty(b.likertLabels.value, lang, idx) {
          return b.likertLabels.value[lang][idx];
        }
        if HasNonEmpty(b.likertLabels.value, "en", idx) {
          return b.likertLabels.value["en"][idx];
        }
      }
      if scaleLabels.Some? {
        if HasNonEmpty(scaleLabels.value, lang, idx) {
          return scaleLabels.value[lang][idx];
        }
        if HasNonEmpty(scaleLabels.value, "en", idx) {
          return scaleLabels.value["en"][idx];
        }
      }
      out := ItoaInBuffer(r.rawValue);
      return;
    }
    if b.options.Some? && r.rawJson != NoJson {
      var v := MapRawJSONToLang(key, b.options.value, r.rawJson, lang);
      if v != "" {
        return v;
      }
    }
    if IsNumeric(b) {
      out := ItoaInBuffer(if r.rawValue != 0 then r.rawValue else r.scoreValue);
      return;
    }
    return render(r.rawJson);
  }

  // A label there is for the point after idx.
  predicate Labelled(labels: Option<Labels>, lang: string, idx: nat) {
    labels.Some? && lang in labels.value && idx < |labels.value[lang]| && labels.value[lang][idx] != ""
  }

  // What a Likert answer is shown as: the item's label in the language asked for, else the item's English one, else the
  // scale's in that language, else the scale's English one, else the number.
  lemma LikertLabel(
    key: string -> string, render: Json -> string, b: Body, scaleLabels: Option<Labels>, r: Response, lang: string, out: string)
    requires b.itemType in {"", "likert"} && r.rawValue > 0
    requires MayShow(key, render, b, scaleLabels, r, lang, out)
    ensures
      var k := r.rawValue - 1;
      && (Labelled(b.likertLabels, lang, k) ==> out == b.likertLabels.value[lang][k])
      && (!Labelled(b.likertLabels, lang, k) && Labelled(b.likertLabels, "en", k) ==> out == b.likertLabels.value["en"][k])
      && (!Labelled(b.likertLabels, lang, k) && !Labelled(b.likertLabels, "en", k) ==>
           && (Labelled(scaleLabels, lang, k) ==> out == scaleLabels.value[lang][k])
           && (!Labelled(scaleLabels, lang, k) && Labelled(scaleLabels, "en", k) ==> out == scaleLabels.value["en"][k])
           && (!Labelled(scaleLabels, lang, k) && !Labelled(scaleLabels, "en", k) ==> out == Numeral(r.rawValue)))
  {
  }

  // From the submission through the adapter to the export: a point chosen is shown as its own label, on a reversed item
  // too, and a number given to a rating, slider or numeric item as that number.
  lemma PointIsExported(
    key: string -> string, render: Json -> string, b: Body, scaleLabels: Option<Labels>, points: int, at: int, pid: string,
    lang: string, ans: Answer, n: int, r: Response, out: string)
    requires b.itemType in {"", "likert"} && AnswerNumber(ans) == Some(n) && 1 <= n <= points
    requires IsResponseTo(key, ans, Seen(b), points, at, pid, r)
    requires MayShow(key, render, b, scaleLabels, r, lang, out)
    ensures Labelled(b.likertLabels, lang, n - 1) ==> out == b.likertLabels.value[lang][n - 1]
    ensures b.likertLabels.None? && Labelled(scaleLabels, lang, n - 1) ==> out == scaleLabels.value[lang][n - 1]
    ensures b.likertLabels.None? && scaleLabels.None? ==> out == Numeral(n)
  {
    assert Accepted(Seen(b), points, Some(n));
    LikertLabel(key, render, b, scaleLabels, r, lang, out);
  }

  lemma NumberIsExported(
    key: string -> string, render: Json -> string, b: Body, scaleLabels: Option<Labels>, points: int, at: int, pid: string,
    lang: string, ans: Answer, n: int, r: Response, out: string)
    requires b.itemType in {"rating", "slider", "numeric"} && b.options.None? && AnswerNumber(ans) == Some(n)
    requires IsResponseTo(key, ans, Seen(b), points, at, pid, r)
    requires MayShow(key, render, b, scaleLabels, r, lang, out)
    ensures out == Itoa(n)
  {
    assert Accepted(Seen(b), points, Some(n));
  }

  // Without a point, a number or options to go by, the stored document is shown.
  lemma DocumentShown(
    key: string -> string, render: Json -> string, b: Body, scaleLabels: Option<Labels>, r: Response, lang: string, out: string)
    requires b.itemType !in {"rating", "slider", "numeric"} && (b.itemType in {"", "likert"} ==> r.rawValue <= 0)
    requires b.options.None? || r.rawJson == NoJson || r.rawJson.Other?
    requires MayShow(key, render, b, scaleLabels, r, lang, out)
    ensures out == render(r.rawJson)
  {
  }

  predicate IsChoice(b: Body) {
    !IsLikert(b) && !IsNumeric(b) && b.options.Some?
  }

  // The service on its own, handed the item with its options: a single option comes back in the language it was chosen in.
  lemma ChoiceIsExported(
    key: string -> string, render: Json -> string, b: Body, scaleLabels: Option<Labels>, points: int, at: int, pid: string,
    lang: string, k: nat, ans: Answer, r: Response, out: string)
    requires IsChoice(b) && Unambiguous(key, b.options.value) && HasNonEmpty(b.options.value, lang, k)
    requires ans.raw.Text? && Same(key, b.options.value[lang][k], ans.raw.text)
    requires IsResponseTo(key, ans, b, points, at, pid, r)
    requires MayShow(key, render, b, scaleLabels, r, lang, out)
    ensures out == b.options.value[lang][k]
  {
    var opts := b.options.value;
    if MayMapTo(key, opts, r.rawJson, lang, "") {
      OptionComesBack(key, opts, lang, k, ans.raw.text, r.rawJson.text, "");
    }
    if MayMapTo(key, opts, r.rawJson, lang, out) {
      OptionComesBack(key, opts, lang, k, ans.raw.text, r.rawJson.text, out);
    }
  }

  // And so does a choice of several, in the order they were chosen in.
  lemma ChoicesAreExported(
    key: string -> string, render: Json -> string, b: Body, scaleLabels: Option<Labels>, points: int, at: int, pid: string,
    lang: string, ks: seq<nat>, ans: Answer, r: Response, out: string)
    requires IsChoice(b) && Unambiguous(key, b.options.value)
    requires ans.raw.Texts? && AreOptions(key, b.options.value, lang, ks, ans.raw.texts) && ks != []
    requires IsResponseTo(key, ans, b, points, at, pid, r)
    requires MayShow(key, render, b, scaleLabels, r, lang, out)
    ensures out == JoinWith(LabelsAt(b.options.value, lang, ks), ", ")
  {
    var opts := b.options.value;
    JoinedNotEmpty(LabelsAt(opts, lang, ks), ", ");
    if MayMapTo(key, opts, r.rawJson, lang, "") {
      OptionsComeBack(key, opts, lang, ks, ans.raw.texts, r.rawJson, "");
    }
    if MayMapTo(key, opts, r.rawJson, lang, out) {
      OptionsComeBack(key, opts, lang, ks, ans.raw.texts, r.rawJson, out);
    }
  }

  // As wired, where the item comes without its options and the answer is stored as it came: from the submission of
  // ProcessBulkResponses to the export a single option comes back too.
  lemma WiredChoiceIsExported(
    key: string -> string, render: Json -> string, b: Body, scaleLabels: Option<Labels>, points: int, at: int, pid: string,
    lang: string, k: nat, ans: Answer, r: Response, out: string)
    requires IsChoice(b) && Unambiguous(key, b.options.value) && HasNonEmpty(b.options.value, lang, k)
    requires ans.raw.Text? && Same(key, b.options.value[lang][k], ans.raw.text)
    requires IsResponseTo(key, ans, Seen(b), points, at, pid, r)
    requires MayShow(key, render, b, scaleLabels, r, lang, out)
    ensures out == b.options.value[lang][k]
  {
    var opts := b.options.value;
    assert r.rawJson == ans.raw;
    if MayMapTo(key, opts, r.rawJson, lang, "") {
      RelabelFinds(key, opts, lang, k, lang, ans.raw.text, "");
    }
    if MayMapTo(key, opts, r.rawJson, lang, out) {
      RelabelFinds(key, opts, lang, k, lang, ans.raw.text, out);
    }
  }

  lemma WiredChoicesAreExported(
    key: string -> string, render: Json -> string, b: Body, scaleLabels: Option<Labels>, points: int, at: int, pid: string,
    lang: string, ks: seq<nat>, ans: Answer, r: Response, out: string)
    requires IsChoice(b) && Unambiguous(key, b.options.value)
    requires ans.raw.Texts? && AreOptions(key, b.options.value, lang, ks, ans.raw.texts) && ks != []
    requires IsResponseTo(key, ans, Seen(b), points, at, pid, r)
    requires MayShow(key, render, b, scaleLabels, r, lang, out)
    ensures out == JoinWith(LabelsAt(b.options.value, lang, ks), ", ")
  {
    var opts := b.options.value;
    assert r.rawJson == ans.raw;
    JoinedNotEmpty(LabelsAt(opts, lang, ks), ", ");
    if MayMapTo(key, opts, r.rawJson, lang, "") {
      OptionsRecognised(key, opts, lang, ks, ans.raw.texts, "");
    }
    if MayMapTo(key, opts, r.rawJson, lang, out) {
      OptionsRecognised(key, opts, lang, ks, ans.raw.texts, out);
    }
  }

  // Every option of a choice item, submitted as its label in some language, is shown as that label in that language.
  ghost predicate AlwaysExported(key: string -> string, render: Json -> string, b: Body)
    requires b.options.Some?
  {
    forall points, at, pid, scaleLabels, lang, k: nat, ans: Answer, r, out ::
      ans.itemId != "" && Has(b.options.value, lang, k) && ans.raw == Text(b.options.value[lang][k])
      && IsResponseTo(key, ans, Seen(b), points, at, pid, r) && MayShow(key, render, b, scaleLabels, r, lang, out)
      ==> out == b.options.value[lang][k]
  }

  // On aligned lists the wired pipeline brings every option back exactly when no label reads like one of another option.
  lemma ExportedIffUnambiguous(key: string -> string, render: Json -> string, b: Body, n: nat)
    requires IsChoice(b) && Aligned(key, b.options.value, n)
    ensures AlwaysExported(key, render, b) <==> Unambiguous(key, b.options.value)
  {
    var opts := b.options.value;
    if Unambiguous(key, opts) {
      forall points, at, pid, scaleLabels, lang, k: nat, ans: Answer, r, out |
        ans.itemId != "" && Has(opts, lang, k) && ans.raw == Text(opts[lang][k])
        && IsResponseTo(key, ans, Seen(b), points, at, pid, r) && MayShow(key, render, b, scaleLabels, r, lang, out)
        ensures out == opts[lang][k]
      {
        NonBlankIsNonEmpty(opts, lang, k);
        WiredChoiceIsExported(key, render, b, scaleLabels, points, at, pid, lang, k, ans, r, out);
      }
    } else {
      RecognisedIffUnambiguous(key, opts, n);
      var lang, k: nat, out :| Has(opts, lang, k) && MayRelabel(key, opts, lang, opts[lang][k], out) && out != opts[lang][k];
      ShownWrong(key, render, b, n, lang, k, out);
    }
  }

  lemma ShownWrong(key: string -> string, render: Json -> string, b: Body, n: nat, lang: string, k: nat, out: string)
    requires IsChoice(b) && Aligned(key, b.options.value, n) && Has(b.options.value, lang, k)
    requires MayRelabel(key, b.options.value, lang, b.options.value[lang][k], out) && out != b.options.value[lang][k]
    ensures !AlwaysExported(key, render, b)
  {
    var val := b.options.value[lang][k];
    var ans := Answer("I", None, Text(val), None);
    var r := Response("", "I", 0, 0, 0, Text(val));
    assert IsResponseTo(key, ans, Seen(b), 0, 0, "", r);
    assert out != "";
    assert MayMapTo(key, b.options.value, r.rawJson, lang, out);
    assert MayShow(key, render, b, None, r, lang, out);
  }

  lemma JoinedNotEmpty(list: seq<string>, sep: string)
    requires list != [] && list[|list| - 1] != ""
    ensures JoinWith(list, sep) != ""
  {
  }
}
