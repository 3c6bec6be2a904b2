// The entities of internal/services/types.go and internal/api/store.go that the other modules share.
module Survey {
  import opened Wrappers

  // A decoded JSON answer. Other stands for every document the answer code does not decode (numbers, objects, ...).
  datatype Json = NoJson | Null | Text(text: string) | Texts(texts: seq<string>) | Other(document: string)

  datatype Response = Response(
    participantId: string,
    itemId: string,
    rawValue: int,
    scoreValue: int,
    submittedAt: int,
    rawJson: Json)

  // Everything of an item except its identity, its scale and its position. None is Go's nil map.
  datatype Body = Body(
    reverseScored: bool,
    stem: Option<map<string, string>>,
    itemType: string,
    options: Option<map<string, seq<string>>>,
    placeholder: Option<map<string, string>>,
    min: int,
    max: int,
    step: int,
    required: bool,
    likertLabels: Option<map<string, seq<string>>>,
    likertShowNumbers: bool)

  datatype Item = Item(id: string, scaleId: string, order: int, body: Body)

  function Localized(texts: Option<map<string, string>>, lang: string): string {
    if texts.Some? && lang in texts.value then texts.value[lang] else ""
  }

  function LocalizedList(lists: Option<map<string, seq<string>>>, lang: string): seq<string> {
    if lists.Some? && lang in lists.value then lists.value[lang] else []
  }

  function ItemIds(items: seq<Item>): (r: seq<string>)
    ensures |r| == |items|
    ensures forall i :: 0 <= i < |items| ==> r[i] == items[i].id
  {
    seq(|items|, i requires 0 <= i < |items| => items[i].id)
  }
}
