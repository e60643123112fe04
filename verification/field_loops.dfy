/** The two loop shapes the metadata projection repeats: a walk over a
    dictionary's pairs that updates the fields it recognises, and a walk
    over a list that converts every element. Both stop at the first failure
    (Rust's `?`). Each is stated once here against a reference reading:
    which pair's value a field ends up holding, and which failure wins. */
module FieldLoops {
  import opened Results

  /** `for (key, value) in dict { ... }`: the pairs are visited in order, and
      `step` folds each into the accumulator or fails. */
  function FoldEntries<K, V, A, E>(entries: seq<(K, V)>, acc: A, step: (A, K, V) -> Result<A, E>)
    : (r: Result<A, E>)
    decreases |entries|
  {
    if |entries| == 0 then Ok(acc)
    else
      var next :- step(acc, entries[0].0, entries[0].1);
      FoldEntries(entries[1..], next, step)
  }

  /** The position of the last pair whose key is `key`. */
  function LastIndex<K(==), V>(entries: seq<(K, V)>, key: K): (r: Option<nat>)
    ensures r.Some? ==> r.value < |entries| && entries[r.value].0 == key
    ensures r.Some? ==> forall j :: r.value < j < |entries| ==> entries[j].0 != key
    ensures r.None? <==> forall j :: 0 <= j < |entries| ==> entries[j].0 != key
    decreases |entries|
  {
    if |entries| == 0 then None
    else
      match LastIndex(entries[1..], key)
      case Some(i) => Some(i + 1)
      case None => if entries[0].0 == key then Some(0) else None
  }

  /** Pair `i` is the first that `check` rejects. */
  predicate FirstRejected<K, V, E>(entries: seq<(K, V)>, check: (K, V) -> Option<E>, i: nat) {
    && i < |entries| && check(entries[i].0, entries[i].1).Some?
    && forall j :: 0 <= j < i ==> check(entries[j].0, entries[j].1).None?
  }

  /** `e` is the error `check` gives the first pair it rejects. */
  ghost predicate RejectedFirst<K, V, E>(entries: seq<(K, V)>, check: (K, V) -> Option<E>, e: E) {
    exists i: nat :: FirstRejected(entries, check, i) && check(entries[i].0, entries[i].1) == Some(e)
  }

  /** When a step fails exactly on the pairs `check` rejects, whatever the
      accumulator, the loop fails exactly when some pair is rejected, and
      then with the error of the first one. */
  lemma {:induction false} FoldEntriesFails<K, V, A, E>(entries: seq<(K, V)>, acc: A,
      step: (A, K, V) -> Result<A, E>, check: (K, V) -> Option<E>)
    requires forall a, k, v :: step(a, k, v).Err? <==> check(k, v).Some?
    requires forall a, k, v :: step(a, k, v).Err? ==> check(k, v) == Some(step(a, k, v).error)
    ensures FoldEntries(entries, acc, step).Err? <==>
      exists i :: 0 <= i < |entries| && check(entries[i].0, entries[i].1).Some?
    ensures FoldEntries(entries, acc, step).Err? ==>
      RejectedFirst(entries, check, FoldEntries(entries, acc, step).error)
    decreases |entries|
  {
    if |entries| > 0 {
      var first := step(acc, entries[0].0, entries[0].1);
      if first.Err? {
        assert FirstRejected(entries, check, 0);
      } else {
        var rest := entries[1..];
        FoldEntriesFails(rest, first.value, step, check);
        assert forall i :: 0 <= i < |rest| ==> rest[i] == entries[i + 1];
        if FoldEntries(rest, first.value, step).Err? {
          var i: nat :| FirstRejected(rest, check, i)
            && check(rest[i].0, rest[i].1) == Some(FoldEntries(rest, first.value, step).error);
          assert check(entries[0].0, entries[0].1).None?;
          assert FirstRejected(entries, check, i + 1);
        }
      }
    }
  }

  /** Last one wins: when a step sets a field to `conv(value)` on pairs
      with key `key` and leaves it alone on every other pair, the field
      after a successful loop is the converted value of the last pair with
      that key, or its initial value if there is none. */
  lemma {:induction false} FoldEntriesLastWins<K, V, A, E, F>(entries: seq<(K, V)>, acc: A,
      step: (A, K, V) -> Result<A, E>, field: A -> F, key: K, conv: V -> F)
    requires forall a, k, v :: step(a, k, v).Ok? ==>
      field(step(a, k, v).value) == if k == key then conv(v) else field(a)
    requires FoldEntries(entries, acc, step).Ok?
    ensures field(FoldEntries(entries, acc, step).value) ==
      match LastIndex(entries, key)
      case None => field(acc)
      case Some(i) => conv(entries[i].1)
    decreases |entries|
  {
    if |entries| > 0 {
      var next := step(acc, entries[0].0, entries[0].1).value;
      FoldEntriesLastWins(entries[1..], next, step, field, key, conv);
    }
  }

  /** `for x in list { out.push(conv(x)?) }`: every element converted, in
      order, or the first failure. */
  function MapAll<T, U, E>(xs: seq<T>, conv: T -> Result<U, E>): (r: Result<seq<U>, E>)
    decreases |xs|
  {
    if |xs| == 0 then Ok([])
    else
      var first :- conv(xs[0]);
      var rest :- MapAll(xs[1..], conv);
      Ok([first] + rest)
  }

  /** The list loop succeeds exactly when every element converts; it then
      yields one result per element, in order, and otherwise fails with the
      error of the first element that does not convert. */
  lemma {:induction false} MapAllSpec<T, U, E>(xs: seq<T>, conv: T -> Result<U, E>)
    ensures MapAll(xs, conv).Ok? <==> forall i :: 0 <= i < |xs| ==> conv(xs[i]).Ok?
    ensures MapAll(xs, conv).Ok? ==>
      && |MapAll(xs, conv).value| == |xs|
      && forall i :: 0 <= i < |xs| ==> MapAll(xs, conv).value[i] == conv(xs[i]).value
    ensures MapAll(xs, conv).Err? ==> exists i ::
      && 0 <= i < |xs|
      && conv(xs[i]) == Err(MapAll(xs, conv).error)
      && forall j :: 0 <= j < i ==> conv(xs[j]).Ok?
    decreases |xs|
  {
    if |xs| > 0 {
      var rest := xs[1..];
      MapAllSpec(rest, conv);
      assert forall i :: 0 <= i < |rest| ==> rest[i] == xs[i + 1];
      if conv(xs[0]).Ok? && MapAll(rest, conv).Err? {
        var i :| 0 <= i < |rest| && conv(rest[i]) == Err(MapAll(rest, conv).error)
          && forall j :: 0 <= j < i ==> conv(rest[j]).Ok?;
        assert conv(xs[i + 1]) == Err(MapAll(xs, conv).error);
      }
    }
  }
}
