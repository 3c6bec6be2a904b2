// From stored responses to Cronbach's alpha: filterLikertItems and buildAlphaMatrix of
// internal/services/analytics_service.go. The rows come in the order Go iterates a map in, which is no order at all.
module AlphaMatrix {
  import opened Survey
  import RealSums
  import Reordering
  import opened Listing
  import opened Cronbach
  import opened AlphaLaws
  import opened WideTable

  predicate IsLikertItem(it: Item) {
    it.body.itemType == "" || it.body.itemType == "likert"
  }

  function LikertIds(items: seq<Item>): set<string> {
    set it | it in items && IsLikertItem(it) :: it.id
  }

  predicate Complete(ids: seq<string>, row: Row) {
    forall id :: id in ids ==> id in row
  }

  function ScoreAt(row: Row, id: string): real {
    if id in row then row[id] as real else 0.0
  }

  function ScoresFor(ids: seq<string>, row: Row): seq<real> {
    seq(|ids|, j requires 0 <= j < |ids| => ScoreAt(row, ids[j]))
  }

  function MatrixFor(rs: seq<Response>, ids: seq<string>, order: seq<string>): Matrix {
    seq(|order|, i requires 0 <= i < |order| => ScoresFor(ids, RowOf(Wide(rs), order[i])))
  }

  lemma {:induction false} SameRows(rs: seq<Response>, ids: seq<string>, a: seq<string>, b: seq<string>)
    requires multiset(a) == multiset(b)
    ensures multiset(MatrixFor(rs, ids, a)) == multiset(MatrixFor(rs, ids, b))
    decreases |a|
  {
    RealSums.SameSize(a, b);
    if a != [] {
      var n := |a| - 1;
      var k := RealSums.RemoveLast(a, b);
      SameRows(rs, ids, a[..n], b[..k] + b[k + 1..]);
      RowsWithout(rs, ids, a, n);
      RowsWithout(rs, ids, b, k);
      assert a[..n] + a[n + 1..] == a[..n];
    }
  }

  lemma RowsWithout(rs: seq<Response>, ids: seq<string>, order: seq<string>, k: nat)
    requires k < |order|
    ensures multiset(MatrixFor(rs, ids, order))
         == multiset(MatrixFor(rs, ids, order[..k] + order[k + 1..])) + multiset{ScoresFor(ids, RowOf(Wide(rs), order[k]))}
  {
    Without(MatrixFor(rs, ids, order), k);
    MatrixWithout(rs, ids, order, k);
  }

  lemma Without<T>(xs: seq<T>, k: nat)
    requires k < |xs|
    ensures multiset(xs) == multiset(xs[..k] + xs[k + 1..]) + multiset{xs[k]}
  {
    assert xs == xs[..k] + [xs[k]] + xs[k + 1..];
  }

  lemma MatrixWithout(rs: seq<Response>, ids: seq<string>, order: seq<string>, k: nat)
    requires k < |order|
    ensures MatrixFor(rs, ids, order[..k] + order[k + 1..]) == MatrixFor(rs, ids, order)[..k] + MatrixFor(rs, ids, order)[k + 1..]
  {
  }

  // The participants who answered every item, each once.
  predicate Enumerates(order: seq<string>, rs: seq<Response>, ids: seq<string>) {
    && NoDuplicates(order)
    && (forall pid :: pid in order ==> pid in Wide(rs) && Complete(ids, Wide(rs)[pid]))
    && (forall pid :: pid in Wide(rs) && Complete(ids, Wide(rs)[pid]) ==> pid in order)
  }

  method FilterLikertIds(items: seq<Item>) returns (ids: set<string>)
    ensures ids == LikertIds(items)
    ensures forall id :: id in ids <==> exists it :: it in items && it.id == id && it.body.itemType in {"", "likert"}
  {
    ids := {};
    for i := 0 to |items|
      invariant ids == LikertIds(items[..i])
    {
      assert items[..i + 1] == items[..i] + [items[i]];
      if IsLikertItem(items[i]) {
        ids := ids + {items[i].id};
      }
    }
    assert items[..|items|] == items;
  }

  method BuildAlphaMatrix(items: seq<Item>, rs: seq<Response>)
    returns (matrix: Matrix, n: nat, ids: seq<string>, ghost order: seq<string>)
    ensures forall id :: id in ids <==> id in LikertIds(items)
    ensures StrictlyAscending(ids) && NoDuplicates(ids)
    ensures Enumerates(order, rs, ids)
    ensures matrix == MatrixFor(rs, ids, order) && n == |order|
  {
    var mp := BuildWideMap(rs);
    var likert := FilterLikertIds(items);
    ids := SortedKeys(likert);
    matrix, order := CompleteRows(mp, ids, rs);
    n := |matrix|;
  }

  method CompleteRows(mp: Table, ids: seq<string>, ghost rs: seq<Response>) returns (matrix: Matrix, ghost order: seq<string>)
    requires mp == Wide(rs)
    ensures Enumerates(order, rs, ids)
    ensures matrix == MatrixFor(rs, ids, order)
  {
    matrix, order := [], [];
    var left := mp.Keys;
    while left != {}
      invariant left <= mp.Keys
      invariant NoDuplicates(order)
      invariant forall pid :: pid in order ==> pid in mp && pid !in left && Complete(ids, mp[pid])
      invariant forall pid :: pid in mp && pid !in left && Complete(ids, mp[pid]) ==> pid in order
      invariant matrix == MatrixFor(rs, ids, order)
      decreases |left|
    {
      var pid :| pid in left;
      left := left - {pid};
      var complete, row := ScoreRow(ids, mp[pid]);
      if complete {
        assert RowOf(Wide(rs), pid) == mp[pid];
        matrix := matrix + [row];
        order := order + [pid];
      }
    }
  }

  method ScoreRow(ids: seq<string>, answers: Row) returns (complete: bool, row: seq<real>)
    ensures complete <==> Complete(ids, answers)
    ensures complete ==> row == ScoresFor(ids, answers)
  {
    row := [];
    for j := 0 to |ids|
      invariant |row| == j
      invariant forall i :: 0 <= i < j ==> ids[i] in answers && row[i] == ScoreAt(answers, ids[i])
    {
      if ids[j] !in answers {
        return false, row;
      }
      row := row + [answers[ids[j]] as real];
    }
    return true, row;
  }

  // Row by row and column by column: the score of the last answer the participant gave to the item.
  lemma MatrixCell(rs: seq<Response>, ids: seq<string>, order: seq<string>, i: nat, j: nat)
    requires Enumerates(order, rs, ids) && i < |order| && j < |ids|
    ensures
      var m := MatrixFor(rs, ids, order);
      |m| == |order| && |m[i]| == |ids|
      && exists n: nat :: LastAnswer(rs, n, order[i], ids[j]) && m[i][j] == rs[n].scoreValue as real
  {
    WideCells(rs, order[i], ids[j]);
    assert order[i] in order && ids[j] in ids;
    var n: nat :| LastAnswer(rs, n, order[i], ids[j]);
    assert MatrixFor(rs, ids, order)[i][j] == rs[n].scoreValue as real;
  }

  // ----- what does not depend on the iteration order -----

  // Alpha, and the number of participants it is computed for, are functions of the responses.
  lemma AlphaOfResponses(rs: seq<Response>, ids: seq<string>, a: seq<string>, b: seq<string>)
    requires Enumerates(a, rs, ids) && Enumerates(b, rs, ids)
    ensures Alpha(MatrixFor(rs, ids, a)) == Alpha(MatrixFor(rs, ids, b)) && |a| == |b|
  {
    Reordering.SameMultiset(a, b);
    RealSums.SameSize(a, b);
    SameRows(rs, ids, a, b);
    AlphaIgnoresParticipantOrder(MatrixFor(rs, ids, a), MatrixFor(rs, ids, b));
  }

  predicate Answered(rs: seq<Response>, pid: string, itemId: string) {
    exists r :: r in rs && r.participantId == pid && r.itemId == itemId
  }

  // The participants counted are the ones with an answer to every Likert item.
  lemma CountedParticipants(rs: seq<Response>, ids: seq<string>, order: seq<string>, pid: string)
    requires Enumerates(order, rs, ids)
    ensures pid in order <==> (exists r :: r in rs && r.participantId == pid) && (forall id :: id in ids ==> Answered(rs, pid, id))
  {
    WideCells(rs, pid, "");
    forall id ensures id in RowOf(Wide(rs), pid) <==> Answered(rs, pid, id) {
      WideCells(rs, pid, id);
      LastOf(rs, pid, id);
    }
    assert (exists r :: r in rs && r.participantId == pid) <==> exists i :: 0 <= i < |rs| && rs[i].participantId == pid;
  }

  lemma {:induction false} LastOf(rs: seq<Response>, pid: string, itemId: string)
    ensures Answered(rs, pid, itemId) <==> exists i: nat :: LastAnswer(rs, i, pid, itemId)
  {
    if rs != [] {
      var n := |rs| - 1;
      LastOf(rs[..n], pid, itemId);
      LastAnswerStep(rs, pid, itemId);
      assert rs == rs[..n] + [rs[n]];
    }
  }
}
