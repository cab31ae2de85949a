/**
 The in-memory meal history: a map from user id to that user's meal entries,
 oldest first, and the update `history.setdefault(user_id, []).append(data)`
 that records one upload.
 */
module History {
  import opened CalorieExtract

  /** The part of one upload's record the model keeps: the meal label, the
      total and the ingredient records extracted from the reply. */
  datatype Entry = Entry(meal: string, totalCalories: nat, ingredients: seq<Record>)

  type Log = map<string, seq<Entry>>

  /** The user's list, or the empty list `setdefault` would insert. */
  function EntriesOf(h: Log, user: string): seq<Entry> {
    if user in h then h[user] else []
  }

  /** `history.setdefault(user, []).append(e)`. */
  function Append(h: Log, user: string, e: Entry): (r: Log)
    ensures r.Keys == h.Keys + {user}
    ensures r[user] == EntriesOf(h, user) + [e]
  {
    h[user := EntriesOf(h, user) + [e]]
  }

  /** The user's old entries are kept, in place, and the new one is last. */
  lemma AppendExtends(h: Log, user: string, e: Entry)
    ensures |Append(h, user, e)[user]| == |EntriesOf(h, user)| + 1
    ensures Append(h, user, e)[user][..|EntriesOf(h, user)|] == EntriesOf(h, user)
    ensures Append(h, user, e)[user][|EntriesOf(h, user)|] == e
  {
    var prev := EntriesOf(h, user);
    assert (prev + [e])[..|prev|] == prev;
  }

  /** Appending for one user leaves every other user's list as it was. */
  lemma AppendLeavesOthers(h: Log, user: string, e: Entry, other: string)
    requires other != user
    ensures other in Append(h, user, e) <==> other in h
    ensures other in h ==> Append(h, user, e)[other] == h[other]
  {
  }

  /** The entry one upload records, built from the meal label and the reply. */
  function EntryFor(meal: string, reply: string): (e: Entry)
    ensures e.meal == meal
    ensures e.totalCalories == SumCalories(e.ingredients)
    ensures Extraction(e.ingredients, e.totalCalories) == Parse(reply)
  {
    var x := Parse(reply);
    Entry(meal, x.totalCalories, x.ingredients)
  }

  /** One upload's effect on the history. */
  function Upload(h: Log, user: string, meal: string, reply: string): (r: Log)
    ensures r.Keys == h.Keys + {user}
    ensures EntriesOf(r, user) == EntriesOf(h, user) + [EntryFor(meal, reply)]
    ensures forall u :: u != user ==> EntriesOf(r, u) == EntriesOf(h, u)
  {
    Append(h, user, EntryFor(meal, reply))
  }

  /** Every stored entry's total is the sum of its ingredient calories. */
  predicate Consistent(h: Log) {
    forall u, k :: u in h && 0 <= k < |h[u]| ==>
      h[u][k].totalCalories == SumCalories(h[u][k].ingredients)
  }

  /** Uploads keep the history consistent. */
  lemma UploadConsistent(h: Log, user: string, meal: string, reply: string)
    requires Consistent(h)
    ensures Consistent(Upload(h, user, meal, reply))
  {
    var r: Log := Upload(h, user, meal, reply);
    forall u: string, k: int | u in r && 0 <= k < |r[u]|
      ensures r[u][k].totalCalories == SumCalories(r[u][k].ingredients)
    {
      if u == user && k == |EntriesOf(h, user)| {
        assert r[u][k] == EntryFor(meal, reply);
      } else if u == user {
        assert r[u][k] == EntriesOf(h, user)[k];
      }
    }
  }

  /** Appending `es` one after another, in order, to the user's list. */
  function AppendAll(h: Log, user: string, es: seq<Entry>): Log {
    if |es| == 0 then h else Append(AppendAll(h, user, es[..|es| - 1]), user, es[|es| - 1])
  }

  /** A user's list is the old list followed by the new entries in upload
      order. */
  lemma {:induction false} AppendAllEntries(h: Log, user: string, es: seq<Entry>)
    ensures EntriesOf(AppendAll(h, user, es), user) == EntriesOf(h, user) + es
  {
    if |es| > 0 {
      var init, last := es[..|es| - 1], es[|es| - 1];
      var m := AppendAll(h, user, init);
      AppendAllEntries(h, user, init);
      AppendedLast(m, user, last);
      assert init + [last] == es;
    }
  }

  lemma AppendedLast(h: Log, user: string, e: Entry)
    ensures EntriesOf(Append(h, user, e), user) == EntriesOf(h, user) + [e]
  {
    assert Append(h, user, e)[user] == EntriesOf(h, user) + [e];
  }

  /** Nobody else's list moves while one user's entries are appended. */
  lemma {:induction false} AppendAllOthers(h: Log, user: string, es: seq<Entry>, other: string)
    requires other != user
    ensures EntriesOf(AppendAll(h, user, es), other) == EntriesOf(h, other)
  {
    if |es| > 0 {
      AppendAllOthers(h, user, es[..|es| - 1], other);
      AppendLeavesOthers(AppendAll(h, user, es[..|es| - 1]), user, es[|es| - 1], other);
    }
  }

  /** Uploads of two different users touch different lists, so their order
      does not matter. */
  lemma AppendCommutes(h: Log, u1: string, e1: Entry, u2: string, e2: Entry)
    requires u1 != u2
    ensures Append(Append(h, u1, e1), u2, e2) == Append(Append(h, u2, e2), u1, e1)
  {
  }
}
