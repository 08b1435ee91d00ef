/**
 * `load_dictionary`: the checkpoint's state dict is re-keyed in place. The
 * loop runs over a copy of the key list taken before it starts, and for each
 * key pops the entry and stores its value again under the renamed key.
 */
module StateDictRemap {

  import opened PyStr
  import opened Wrappers
  import opened KeyRename

  /** No key appears twice. */
  predicate Distinct(ks: seq<Str>)
  {
    forall i, j :: 0 <= i < j < |ks| ==> ks[i] != ks[j]
  }

  /** The keys in `ks`, as a set. */
  function Elems(ks: seq<Str>): set<Str>
  {
    set x | x in ks
  }

  /** `ks` with every copy of `k` taken out, the rest in order. */
  function Remove(ks: seq<Str>, k: Str): (r: seq<Str>)
    ensures forall x :: x in r <==> x in ks && x != k
    ensures Distinct(ks) ==> Distinct(r)
    ensures k !in ks ==> r == ks
  {
    if ks == [] then []
    else if ks[0] == k then Remove(ks[1..], k)
    else
      var rest := Remove(ks[1..], k);
      assert Distinct(ks) ==> Distinct([ks[0]] + rest) by {
        if Distinct(ks) {
          assert ks[0] !in ks[1..];
          DistinctCons(ks[0], rest);
        }
      }
      [ks[0]] + rest
  }

  /**
   * In an order without repeats, taking out a key present at index `i` leaves
   * the keys before it and the keys after it, each in their order.
   */
  lemma {:induction false} RemoveAt(ks: seq<Str>, k: Str, i: nat)
    requires Distinct(ks) && i < |ks| && ks[i] == k
    ensures Remove(ks, k) == ks[..i] + ks[i + 1..]
    decreases |ks|
  {
    if i == 0 {
      DistinctHead(ks);
      assert ks[..0] + ks[1..] == ks[1..];
    } else {
      var tail := ks[1..];
      DistinctTail(ks);
      assert ks[0] != k;
      assert tail[i - 1] == k;
      RemoveAt(tail, k, i - 1);
      SliceAround(ks, i);
    }
  }

  /** The head of an order without repeats is not in its tail. */
  lemma DistinctHead(ks: seq<Str>)
    requires Distinct(ks) && ks != []
    ensures ks[0] !in ks[1..]
  {
  }

  /** The tail of an order without repeats has none either. */
  lemma DistinctTail(ks: seq<Str>)
    requires Distinct(ks) && ks != []
    ensures Distinct(ks[1..])
  {
    forall i, j | 0 <= i < j < |ks| - 1 ensures ks[1..][i] != ks[1..][j] {
      assert ks[1..][i] == ks[i + 1] && ks[1..][j] == ks[j + 1];
    }
  }

  /** Cutting index `i > 0` out of `ks` is keeping the head and cutting `i - 1` out of the tail. */
  lemma SliceAround(ks: seq<Str>, i: nat)
    requires 0 < i < |ks|
    ensures [ks[0]] + (ks[1..][..i - 1] + ks[1..][i..]) == ks[..i] + ks[i + 1..]
  {
    assert ks[1..][..i - 1] == ks[1..i] && ks[1..][i..] == ks[i + 1..];
    assert [ks[0]] + ks[1..i] == ks[..i];
  }

  lemma DistinctCons(x: Str, ks: seq<Str>)
    requires Distinct(ks) && x !in ks
    ensures Distinct([x] + ks)
  {
    forall i, j | 0 <= i < j < |ks| + 1 ensures ([x] + ks)[i] != ([x] + ks)[j] {
      if i > 0 {
        assert ([x] + ks)[i] == ks[i - 1];
      }
      assert ([x] + ks)[j] == ks[j - 1];
    }
  }

  /**
   * A state dict: a Python dict from parameter name to tensor (an opaque `V`
   * here), which remembers the order in which its keys were inserted.
   */
  datatype StateDict<V> = StateDict(order: seq<Str>, table: map<Str, V>)
  {
    /** The order lists each key of the table exactly once. */
    ghost predicate Valid()
    {
      Distinct(order) && forall k :: k in table <==> k in order
    }

    /** `d.pop(k)`: the value under `k`, and the dict with `k` gone from table and order. */
    function Pop(k: Str): (r: (V, StateDict<V>))
      requires k in table
      ensures r.0 == table[k] && k !in r.1.table
      ensures r.1.table == table - {k} && r.1.order == Remove(order, k)
      ensures forall x :: x != k ==> (x in r.1.table <==> x in table)
      ensures Valid() ==> r.1.Valid()
    {
      (table[k], StateDict(Remove(order, k), table - {k}))
    }

    /** `d[k] = v`: a new key goes to the end of the order, an existing one keeps its place. */
    function Store(k: Str, v: V): (r: StateDict<V>)
      ensures r.table == table[k := v]
      ensures r.order == if k in table then order else order + [k]
      ensures Valid() ==> r.Valid()
    {
      if k in table then StateDict(order, table[k := v])
      else StateDict(order + [k], table[k := v])
    }
  }

  /**
   * One turn of the loop, `d[rename(k)] = d.pop(k)`: the right-hand side runs
   * first, so `k` is popped before its value is stored under `rename(k)`.
   */
  function Step<V>(d: StateDict<V>, k: Str, rename: Str -> Str): StateDict<V>
    requires k in d.table
  {
    var (v, rest) := d.Pop(k);
    rest.Store(rename(k), v)
  }

  /** What one turn does to the table: the entry under `k` moves to `rename(k)`. */
  lemma StepTable<V>(d: StateDict<V>, k: Str, rename: Str -> Str)
    requires k in d.table
    ensures Step(d, k, rename).table == (d.table - {k})[rename(k) := d.table[k]]
  {
  }

  /** The renamed keys, in processing order. */
  function Renamed(ks: seq<Str>, rename: Str -> Str): (r: seq<Str>)
    ensures |r| == |ks| && forall i :: 0 <= i < |ks| ==> r[i] == rename(ks[i])
  {
    seq(|ks|, i requires 0 <= i < |ks| => rename(ks[i]))
  }

  /**
   * The state dict after the loop has processed the keys `ks`, in order: it
   * stays well formed, and the keys still to be processed are all there (only
   * the key being processed is ever popped), so no `pop` can fail.
   */
  function Remapped<V>(d: StateDict<V>, ks: seq<Str>, rename: Str -> Str): (r: StateDict<V>)
    requires Distinct(ks) && forall i :: 0 <= i < |ks| ==> ks[i] in d.table
    ensures d.Valid() ==> r.Valid()
    ensures forall k :: k in d.table && k !in ks ==> k in r.table
    decreases |ks|
  {
    if ks == [] then d
    else
      var n := |ks| - 1;
      Step(Remapped(d, ks[..n], rename), ks[n], rename)
  }

  /**
   * Whatever the keys, no original key survives the loop unless it was not
   * processed or some key was renamed to it.
   */
  lemma {:induction false} RemappedKeys<V>(d: StateDict<V>, ks: seq<Str>, rename: Str -> Str)
    requires Distinct(ks) && forall i :: 0 <= i < |ks| ==> ks[i] in d.table
    ensures Remapped(d, ks, rename).table.Keys
      <= (d.table.Keys - Elems(ks)) + Elems(Renamed(ks, rename))
    decreases |ks|
  {
    if ks != [] {
      var n := |ks| - 1;
      RemappedKeys(d, ks[..n], rename);
      StepTable(Remapped(d, ks[..n], rename), ks[n], rename);
      SetOfSnoc(ks);
      assert Renamed(ks, rename)[..n] == Renamed(ks[..n], rename);
      SetOfSnoc(Renamed(ks, rename));
    }
  }

  /** Whatever the keys, every value after the loop is the original value of some key. */
  lemma {:induction false} RemappedValues<V>(d: StateDict<V>, ks: seq<Str>, rename: Str -> Str)
    requires Distinct(ks) && forall i :: 0 <= i < |ks| ==> ks[i] in d.table
    ensures forall k :: k in Remapped(d, ks, rename).table ==>
      exists k0 :: k0 in d.table && Remapped(d, ks, rename).table[k] == d.table[k0]
    decreases |ks|
  {
    if ks != [] {
      var n := |ks| - 1;
      RemappedValues(d, ks[..n], rename);
      StepTable(Remapped(d, ks[..n], rename), ks[n], rename);
    }
  }

  /** A checkpoint as `torch.load` returns it: it may lack the 'state_dict' entry. */
  datatype Checkpoint<V> = Checkpoint(stateDict: Option<StateDict<V>>)

  /** Indexing `checkpoint['state_dict']` when the entry is absent raises `KeyError`. */
  datatype LoadError = MissingStateDict

  /**
   * `load_dictionary` after the file has been read: every key of the state
   * dict, taken from a snapshot of its keys, is popped and re-inserted under
   * its renamed key.
   */
  method LoadDictionary<V>(checkpoint: Checkpoint<V>) returns (r: Result<StateDict<V>, LoadError>)
    requires checkpoint.stateDict.Some? ==> checkpoint.stateDict.value.Valid()
    ensures checkpoint.stateDict.None? ==> r == Failure(MissingStateDict)
    ensures checkpoint.stateDict.Some? ==>
      r == Success(Remapped(checkpoint.stateDict.value, checkpoint.stateDict.value.order, Rename))
  {
    if checkpoint.stateDict.None? {
      return Failure(MissingStateDict);
    }
    var d := checkpoint.stateDict.value;
    var keys := d.order;
    for i := 0 to |keys|
      invariant d == Remapped(checkpoint.stateDict.value, keys[..i], Rename)
    {
      var key := keys[i];
      assert keys[..i + 1][..i] == keys[..i];
      var (value, rest) := d.Pop(key);
      d := rest.Store(Rename(key), value);
    }
    assert keys[..|keys|] == keys;
    return Success(d);
  }

  // What the loop produces, under the conditions these facts need.

  /** No renamed key equals an original key that is still waiting to be processed. */
  predicate NoLaterClash(ks: seq<Str>, rename: Str -> Str)
  {
    forall i, j :: 0 <= i < j < |ks| ==> rename(ks[i]) != ks[j]
  }

  /** The renamed keys are pairwise distinct. */
  predicate RenameInjective(ks: seq<Str>, rename: Str -> Str)
  {
    forall i, j :: 0 <= i < j < |ks| ==> rename(ks[i]) != rename(ks[j])
  }

  /**
   * Each processed key's original value under its renamed key, a later store
   * to the same renamed key overwriting an earlier one. These are the entries
   * the loop stores only when no key is renamed onto a key still waiting
   * (`RemappedTable`); otherwise the store overwrites the waiting key's value
   * before that key is popped (`ClashOverwritesWaitingKey`).
   */
  function Moved<V>(d: StateDict<V>, ks: seq<Str>, rename: Str -> Str): map<Str, V>
    requires forall i :: 0 <= i < |ks| ==> ks[i] in d.table
    decreases |ks|
  {
    if ks == [] then map[]
    else Moved(d, ks[..|ks| - 1], rename)[rename(ks[|ks| - 1]) := d.table[ks[|ks| - 1]]]
  }

  /** The keys of `Moved` are exactly the renamed keys. */
  lemma {:induction false} MovedKeys<V>(d: StateDict<V>, ks: seq<Str>, rename: Str -> Str)
    requires forall i :: 0 <= i < |ks| ==> ks[i] in d.table
    ensures forall k :: k in Moved(d, ks, rename) <==> k in Renamed(ks, rename)
    decreases |ks|
  {
    if ks != [] {
      var n := |ks| - 1;
      MovedKeys(d, ks[..n], rename);
      RenamedSnoc(ks, rename);
    }
  }

  /**
   * Under a renamed key, `Moved` holds the value of the last original key
   * renamed to it.
   */
  lemma {:induction false} MovedLastWins<V>(d: StateDict<V>, ks: seq<Str>, rename: Str -> Str, j: nat)
    requires forall i :: 0 <= i < |ks| ==> ks[i] in d.table
    requires j < |ks| && forall l :: j < l < |ks| ==> rename(ks[l]) != rename(ks[j])
    ensures rename(ks[j]) in Moved(d, ks, rename)
    ensures Moved(d, ks, rename)[rename(ks[j])] == d.table[ks[j]]
    decreases |ks|
  {
    var n := |ks| - 1;
    if j < n {
      var init := ks[..n];
      assert init[j] == ks[j];
      forall l | j < l < n ensures rename(init[l]) != rename(init[j]) {
        assert init[l] == ks[l];
      }
      MovedLastWins(d, init, rename, j);
    }
  }

  /** Moving the entry under `k` to `r` in a table split into unprocessed keys and moved entries. */
  lemma MoveBetweenParts<V>(t: map<Str, V>, done: set<Str>, m: map<Str, V>, k: Str, r: Str)
    requires k in t && k !in done && k !in m
    ensures (((t - done) + m) - {k})[r := t[k]] == (t - (done + {k})) + m[r := t[k]]
  {
    assert ((t - done) + m) - {k} == (t - (done + {k})) + m;
  }

  lemma SetOfSnoc(ks: seq<Str>)
    requires ks != []
    ensures Elems(ks) == Elems(ks[..|ks| - 1]) + {ks[|ks| - 1]}
  {
    assert ks == ks[..|ks| - 1] + [ks[|ks| - 1]];
  }

  /**
   * When no key is renamed onto a key still waiting, the table after the loop
   * is the unprocessed part of the original plus the moved entries.
   */
  lemma {:induction false} RemappedTable<V>(d: StateDict<V>, ks: seq<Str>, rename: Str -> Str)
    requires Distinct(ks) && forall i :: 0 <= i < |ks| ==> ks[i] in d.table
    requires NoLaterClash(ks, rename)
    ensures Remapped(d, ks, rename).table == (d.table - Elems(ks)) + Moved(d, ks, rename)
    decreases |ks|
  {
    if ks != [] {
      var n := |ks| - 1;
      var k := ks[n];
      var before := Elems(ks[..n]);
      var moved := Moved(d, ks[..n], rename);
      var prev := Remapped(d, ks[..n], rename);
      RemappedTable(d, ks[..n], rename);
      assert k !in moved by {
        MovedKeys(d, ks[..n], rename);
      }
      assert k !in before;
      StepTable(prev, k, rename);
      MoveBetweenParts(d.table, before, moved, k, rename(k));
      SetOfSnoc(ks);
    }
  }

  /** Popping the head key of an order that holds it once leaves the rest as it was. */
  lemma RemoveHead(k: Str, s: seq<Str>)
    requires k !in s
    ensures Remove([k] + s, k) == s
  {
    assert ([k] + s)[1..] == s;
  }

  /** A turn on a dict whose order starts with `k`, when `rename(k)` is new: head off, new key on. */
  lemma StepOrder<V>(d: StateDict<V>, k: Str, tail: seq<Str>, rename: Str -> Str)
    requires d.Valid() && d.order == [k] + tail
    requires k !in tail && rename(k) !in tail
    ensures Step(d, k, rename).order == tail + [rename(k)]
  {
    RemoveHead(k, tail);
  }

  /**
   * Under the no-clash conditions, the key processed at turn `i` is neither
   * among the keys after it nor among the earlier new keys, and neither is its
   * own new key.
   */
  lemma FreshAtTurn(ks: seq<Str>, rename: Str -> Str, i: nat)
    requires Distinct(ks) && NoLaterClash(ks, rename) && RenameInjective(ks, rename)
    requires i < |ks|
    ensures ks[i] !in ks[i + 1..] + Renamed(ks[..i], rename)
    ensures rename(ks[i]) !in ks[i + 1..] + Renamed(ks[..i], rename)
  {
    var done := Renamed(ks[..i], rename);
    forall l | 0 <= l < |done| ensures done[l] != ks[i] && done[l] != rename(ks[i]) {
      assert done[l] == rename(ks[l]);
    }
    forall l | i + 1 <= l < |ks| ensures ks[l] != ks[i] && ks[l] != rename(ks[i]) {
    }
    assert ks[i] !in ks[i + 1..];
    assert rename(ks[i]) !in ks[i + 1..];
  }

  /** The first `i` keys of a well-formed dict's order can be processed. */
  lemma PrefixReady<V>(d: StateDict<V>, i: nat)
    requires d.Valid() && i <= |d.order|
    ensures Distinct(d.order[..i]) && forall j :: 0 <= j < |d.order[..i]| ==> d.order[..i][j] in d.table
  {
  }

  /** One turn of the order invariant below: the head key leaves, its new key arrives at the end. */
  lemma StepKeepsOrderShape<V>(prev: StateDict<V>, ks: seq<Str>, rename: Str -> Str, i: nat)
    requires Distinct(ks) && NoLaterClash(ks, rename) && RenameInjective(ks, rename)
    requires 0 < i <= |ks| && prev.Valid()
    requires prev.order == ks[i - 1..] + Renamed(ks[..i - 1], rename)
    ensures ks[i - 1] in prev.table
    ensures Step(prev, ks[i - 1], rename).order == ks[i..] + Renamed(ks[..i], rename)
  {
    var k := ks[i - 1];
    var done := Renamed(ks[..i - 1], rename);
    SliceAt(ks, i);
    FreshAtTurn(ks, rename, i - 1);
    StepOrder(prev, k, ks[i..] + done, rename);
    RenamedSnoc(ks[..i], rename);
    AppendAssoc(ks[i..], done, [rename(k)]);
  }

  lemma OrderTurn<V>(d: StateDict<V>, rename: Str -> Str, i: nat)
    requires d.Valid() && NoLaterClash(d.order, rename) && RenameInjective(d.order, rename)
    requires 0 < i <= |d.order|
    requires Remapped(d, d.order[..i - 1], rename).order
      == d.order[i - 1..] + Renamed(d.order[..i - 1], rename)
    ensures Remapped(d, d.order[..i], rename).order
      == d.order[i..] + Renamed(d.order[..i], rename)
  {
    var ks := d.order;
    PrefixReady(d, i);
    PrefixReady(d, i - 1);
    SliceAt(ks, i);
    var prev := Remapped(d, ks[..i - 1], rename);
    StepKeepsOrderShape(prev, ks, rename, i);
    RemappedUnfold(d, ks[..i], rename);
  }

  lemma RemappedUnfold<V>(d: StateDict<V>, ks: seq<Str>, rename: Str -> Str)
    requires Distinct(ks) && forall i :: 0 <= i < |ks| ==> ks[i] in d.table
    requires ks != []
    ensures Remapped(d, ks, rename) == Step(Remapped(d, ks[..|ks| - 1], rename), ks[|ks| - 1], rename)
  {
  }

  /** How the slices around position `i - 1` fit together. */
  lemma SliceAt(ks: seq<Str>, i: nat)
    requires 0 < i <= |ks|
    ensures ks[..i][..i - 1] == ks[..i - 1] && ks[..i][i - 1] == ks[i - 1]
    ensures ks[i - 1..] == [ks[i - 1]] + ks[i..]
  {
  }

  /**
   * With no clash, after `i` turns the order is the keys still waiting
   * followed by the new keys of those already processed: each turn pops the
   * head of the order and appends a key the dict does not yet hold.
   */
  lemma {:induction false} RemappedOrder<V>(d: StateDict<V>, rename: Str -> Str, i: nat)
    requires d.Valid() && NoLaterClash(d.order, rename) && RenameInjective(d.order, rename)
    requires i <= |d.order|
    ensures Remapped(d, d.order[..i], rename).order
      == d.order[i..] + Renamed(d.order[..i], rename)
    decreases i
  {
    if i > 0 {
      RemappedOrder(d, rename, i - 1);
      OrderTurn(d, rename, i);
    } else {
      assert d.order[..0] == [] && d.order[0..] == d.order;
    }
  }

  /** Renaming a list with one more key at the end adds that key's new name at the end. */
  lemma RenamedSnoc(ks: seq<Str>, rename: Str -> Str)
    requires ks != []
    ensures Renamed(ks, rename) == Renamed(ks[..|ks| - 1], rename) + [rename(ks[|ks| - 1])]
  {
  }

  lemma AppendAssoc(a: seq<Str>, b: seq<Str>, c: seq<Str>)
    ensures (a + b) + c == a + (b + c)
  {
  }

  /** A well-formed dict holds exactly the keys of its order. */
  lemma ValidKeys<V>(d: StateDict<V>)
    requires d.Valid()
    ensures d.table.Keys == Elems(d.order)
  {
  }

  /** A list without repeats has as many distinct elements as entries. */
  lemma {:induction false} DistinctCard(ks: seq<Str>)
    requires Distinct(ks)
    ensures |Elems(ks)| == |ks|
    decreases |ks|
  {
    if ks != [] {
      var n := |ks| - 1;
      DistinctCard(ks[..n]);
      SetOfSnoc(ks);
      assert ks[n] !in ks[..n];
    }
  }

  /**
   * Whatever the keys, once every key is processed no original key is left
   * unless some key was renamed to it.
   */
  lemma NoOriginalSurvives<V>(d: StateDict<V>, rename: Str -> Str)
    requires d.Valid()
    ensures forall k :: k in Remapped(d, d.order, rename).table ==> k in Renamed(d.order, rename)
  {
    RemappedKeys(d, d.order, rename);
    ValidKeys(d);
  }

  /** With no clash, the result holds the new keys in processing order and loses no entry. */
  lemma RemappedShape<V>(d: StateDict<V>, rename: Str -> Str)
    requires d.Valid() && NoLaterClash(d.order, rename) && RenameInjective(d.order, rename)
    ensures Remapped(d, d.order, rename).order == Renamed(d.order, rename)
    ensures Remapped(d, d.order, rename).table.Keys == Elems(Renamed(d.order, rename))
    ensures |Remapped(d, d.order, rename).table| == |d.table|
  {
    var r := Remapped(d, d.order, rename);
    RemappedFullOrder(d, rename);
    ValidKeys(r);
    ValidSize(d);
    ValidSize(r);
  }

  /** `RemappedOrder` once every key is processed. */
  lemma RemappedFullOrder<V>(d: StateDict<V>, rename: Str -> Str)
    requires d.Valid() && NoLaterClash(d.order, rename) && RenameInjective(d.order, rename)
    ensures Remapped(d, d.order, rename).order == Renamed(d.order, rename)
  {
    var ks := d.order;
    RemappedOrder(d, rename, |ks|);
    assert ks[..|ks|] == ks && ks[|ks|..] == [];
  }

  /** A well-formed dict has as many entries as its order has keys. */
  lemma ValidSize<V>(d: StateDict<V>)
    requires d.Valid()
    ensures |d.table| == |d.order|
  {
    ValidKeys(d);
    DistinctCard(d.order);
    assert |d.table| == |d.table.Keys|;
  }

  /** With no clash, each renamed key holds the value of its original key. */
  lemma RemappedMovesValues<V>(d: StateDict<V>, rename: Str -> Str)
    requires d.Valid() && NoLaterClash(d.order, rename) && RenameInjective(d.order, rename)
    ensures forall j :: 0 <= j < |d.order| ==>
      rename(d.order[j]) in Remapped(d, d.order, rename).table &&
      Remapped(d, d.order, rename).table[rename(d.order[j])] == d.table[d.order[j]]
  {
    var ks := d.order;
    var r := Remapped(d, ks, rename);
    RemappedTable(d, ks, rename);
    ValidKeys(d);
    assert d.table - Elems(ks) == map[];
    forall j | 0 <= j < |ks|
      ensures rename(ks[j]) in r.table && r.table[rename(ks[j])] == d.table[ks[j]]
    {
      MovedLastWins(d, ks, rename, j);
    }
  }

  /**
   * With no key renamed onto a key still waiting, a new key shared by several
   * original keys holds the value of the last of them processed.
   */
  lemma RemappedLastWins<V>(d: StateDict<V>, rename: Str -> Str, j: nat)
    requires d.Valid() && NoLaterClash(d.order, rename)
    requires j < |d.order| && forall l :: j < l < |d.order| ==> rename(d.order[l]) != rename(d.order[j])
    ensures rename(d.order[j]) in Remapped(d, d.order, rename).table
    ensures Remapped(d, d.order, rename).table[rename(d.order[j])] == d.table[d.order[j]]
  {
    RemappedTable(d, d.order, rename);
    ValidKeys(d);
    assert d.table - Elems(d.order) == map[];
    MovedLastWins(d, d.order, rename, j);
  }

  /**
   * Without that condition last-wins fails: when the first of two keys is
   * renamed onto the second, storing it overwrites the second's value before
   * the second is popped, so the first key's value is the one that survives.
   */
  lemma ClashOverwritesWaitingKey<V>(a: Str, b: Str, va: V, vb: V, rename: Str -> Str)
    requires a != b && rename(a) == b && rename(b) == b
    ensures StateDict([a, b], map[a := va, b := vb]).Valid()
    ensures Remapped(StateDict([a, b], map[a := va, b := vb]), [a, b], rename)
      == StateDict([b], map[b := va])
  {
    var d := StateDict([a, b], map[a := va, b := vb]);
    PairValid(a, b, va, vb);
    RemappedPair(d, a, b, rename);
    ClashFirstTurn(a, b, va, vb, rename);
    ClashSecondTurn(b, va, rename);
  }

  lemma PairValid<V>(a: Str, b: Str, va: V, vb: V)
    requires a != b
    ensures StateDict([a, b], map[a := va, b := vb]).Valid()
  {
  }

  /** Processing two keys is two turns. */
  lemma RemappedPair<V>(d: StateDict<V>, k1: Str, k2: Str, rename: Str -> Str)
    requires k1 != k2 && k1 in d.table && k2 in d.table
    ensures k2 in Step(d, k1, rename).table
    ensures Remapped(d, [k1, k2], rename) == Step(Step(d, k1, rename), k2, rename)
  {
    var ks := [k1, k2];
    assert ks[..1] == [k1];
    RemappedSingle(d, k1, rename);
    RemappedUnfold(d, ks, rename);
  }

  /** Processing one key is one turn. */
  lemma RemappedSingle<V>(d: StateDict<V>, k: Str, rename: Str -> Str)
    requires k in d.table
    ensures Remapped(d, [k], rename) == Step(d, k, rename)
  {
    assert [k][..0] == [];
  }

  /** Turn one: `a` is popped and its value overwrites the waiting `b`, which keeps its place. */
  lemma ClashFirstTurn<V>(a: Str, b: Str, va: V, vb: V, rename: Str -> Str)
    requires a != b && rename(a) == b
    ensures Step(StateDict([a, b], map[a := va, b := vb]), a, rename) == StateDict([b], map[b := va])
  {
    RemoveHead(a, [b]);
    assert (map[a := va, b := vb] - {a})[b := va] == map[b := va];
  }

  /** Turn two: `b` is popped and stored again under `b`, with the value it now holds. */
  lemma ClashSecondTurn<V>(b: Str, va: V, rename: Str -> Str)
    requires rename(b) == b
    ensures Step(StateDict([b], map[b := va]), b, rename) == StateDict([b], map[b := va])
  {
    RemoveHead(b, []);
    assert (map[b := va] - {b})[b := va] == map[b := va];
  }

  /** A list never has more distinct elements than entries. */
  lemma {:induction false} ElemsCardBound(ks: seq<Str>)
    ensures |Elems(ks)| <= |ks|
    decreases |ks|
  {
    if ks != [] {
      var n := |ks| - 1;
      ElemsCardBound(ks[..n]);
      SetOfSnoc(ks);
    }
  }

  /** A list with a repeat has fewer distinct elements than entries. */
  lemma {:induction false} RepeatShrinks(ks: seq<Str>)
    requires !Distinct(ks)
    ensures |Elems(ks)| < |ks|
    decreases |ks|
  {
    var n := |ks| - 1;
    var init := ks[..n];
    SetOfSnoc(ks);
    if ks[n] in init {
      ElemsCardBound(init);
      assert Elems(ks) == Elems(init);
    } else {
      assert !Distinct(init) by {
        var i, j :| 0 <= i < j < |ks| && ks[i] == ks[j];
        assert j < n;
        assert init[i] == ks[i] && init[j] == ks[j];
      }
      RepeatShrinks(init);
    }
  }

  /** With no key renamed onto a key still waiting, the result holds exactly the new keys. */
  lemma RemappedKeysExact<V>(d: StateDict<V>, rename: Str -> Str)
    requires d.Valid() && NoLaterClash(d.order, rename)
    ensures Remapped(d, d.order, rename).table.Keys == Elems(Renamed(d.order, rename))
  {
    RemappedTable(d, d.order, rename);
    MovedKeys(d, d.order, rename);
    ValidKeys(d);
    assert d.table - Elems(d.order) == map[];
  }

  /**
   * With no key renamed onto a key still waiting, the loop keeps every entry
   * exactly when the new keys are pairwise distinct: two keys renamed alike
   * lose an entry to the silent overwrite.
   */
  lemma SizeKeptIffInjective<V>(d: StateDict<V>, rename: Str -> Str)
    requires d.Valid() && NoLaterClash(d.order, rename)
    ensures |Remapped(d, d.order, rename).table| == |d.table| <==> RenameInjective(d.order, rename)
  {
    var rs := Renamed(d.order, rename);
    RemappedKeysExact(d, rename);
    ValidKeys(d);
    DistinctCard(d.order);
    InjectiveIffDistinct(d.order, rename);
    if Distinct(rs) {
      DistinctCard(rs);
    } else {
      RepeatShrinks(rs);
    }
  }

  /** The new keys are pairwise distinct exactly when the list of them has no repeat. */
  lemma InjectiveIffDistinct(ks: seq<Str>, rename: Str -> Str)
    ensures RenameInjective(ks, rename) <==> Distinct(Renamed(ks, rename))
  {
    var rs := Renamed(ks, rename);
    if !RenameInjective(ks, rename) {
      var i, j :| 0 <= i < j < |ks| && rename(ks[i]) == rename(ks[j]);
      assert rs[i] == rs[j];
    }
  }
}
