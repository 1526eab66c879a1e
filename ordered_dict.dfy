/** Python's `collections.OrderedDict` with string keys, as the list of its
    (key, value) entries in insertion order. `d[k] = v` on an existing key
    overwrites the value in place; on a new key it appends an entry. */
module OrderedDicts {
  import opened Lists

  type OrderedDict<V> = seq<(string, V)>

  /** The keys, in insertion order. */
  function Keys<V>(d: OrderedDict<V>): seq<string> {
    seq(|d|, i requires 0 <= i < |d| => d[i].0)
  }

  /** `d.get(k)`: the value stored under `k`, if any. */
  function Get<V>(d: OrderedDict<V>, k: string): (r: Option<V>)
    ensures r.Some? <==> k in Keys(d)
    ensures r.Some? ==> (k, r.value) in d
  {
    if d == [] then None
    else if d[0].0 == k then
      assert Keys(d)[0] == k;
      Some(d[0].1)
    else
      assert Keys(d) == [d[0].0] + Keys(d[1..]);
      Get(d[1..], k)
  }

  /** `d[k] = v`: the first entry with key `k` takes the value `v`; without
      one, the entry is appended. */
  function Assign<V>(d: OrderedDict<V>, k: string, v: V): OrderedDict<V> {
    if d == [] then [(k, v)]
    else if d[0].0 == k then [(k, v)] + d[1..]
    else [d[0]] + Assign(d[1..], k, v)
  }

  /** Assignment and the key order: an existing key keeps its position (the
      keys are unchanged), a new key is appended with its value. */
  lemma {:induction false} AssignKeys<V>(d: OrderedDict<V>, k: string, v: V)
    ensures k in Keys(d) ==> Keys(Assign(d, k, v)) == Keys(d)
    ensures k !in Keys(d) ==> Assign(d, k, v) == d + [(k, v)]
  {
    if d != [] {
      assert Keys(d) == [d[0].0] + Keys(d[1..]);
      var r := Assign(d, k, v);
      if d[0].0 == k {
        assert Keys(r) == Keys(d);
      } else {
        AssignKeys(d[1..], k, v);
        assert Keys(r) == [d[0].0] + Keys(Assign(d[1..], k, v));
      }
    }
  }

  /** Assignment and lookup: afterwards `k` maps to `v` and every other key
      maps to what it mapped to before. */
  lemma {:induction false} AssignGet<V>(d: OrderedDict<V>, k: string, v: V)
    ensures Get(Assign(d, k, v), k) == Some(v)
    ensures forall k' :: k' != k ==> Get(Assign(d, k, v), k') == Get(d, k')
  {
    if d != [] && d[0].0 != k {
      AssignGet(d[1..], k, v);
    }
  }

  /** Assignment never makes a key appear twice. */
  lemma AssignNoDup<V>(d: OrderedDict<V>, k: string, v: V)
    requires NoDup(Keys(d))
    ensures NoDup(Keys(Assign(d, k, v)))
  {
    AssignKeys(d, k, v);
    if k !in Keys(d) {
      assert Keys(d + [(k, v)]) == Keys(d) + [k];
      NoDupConcat(Keys(d), [k]);
    }
  }

  /** The dictionary after the assignments `ws`, performed in order on `d`. */
  function AssignAll<V>(d: OrderedDict<V>, ws: seq<(string, V)>): OrderedDict<V> {
    if ws == [] then d
    else
      var last := ws[|ws| - 1];
      Assign(AssignAll(d, ws[..|ws| - 1]), last.0, last.1)
  }

  /** One more assignment: running the first `i + 1` assignments is running
      the first `i` and then assignment `i`. */
  lemma AssignAllStep<V>(d: OrderedDict<V>, ws: seq<(string, V)>, i: nat)
    requires i < |ws|
    ensures AssignAll(d, ws[..i + 1]) == Assign(AssignAll(d, ws[..i]), ws[i].0, ws[i].1)
  {
    assert ws[..i + 1][..i] == ws[..i];
  }

  /** The value of the last assignment to `k` in `ws`, if any. */
  function LastWrite<V>(ws: seq<(string, V)>, k: string): Option<V> {
    if ws == [] then None
    else if ws[|ws| - 1].0 == k then Some(ws[|ws| - 1].1)
    else LastWrite(ws[..|ws| - 1], k)
  }

  /** After a run of assignments each key holds the value written to it last,
      and a key never written keeps its old value. */
  lemma {:induction false} AssignAllGet<V>(d: OrderedDict<V>, ws: seq<(string, V)>, k: string)
    ensures Get(AssignAll(d, ws), k) ==
      (if LastWrite(ws, k).Some? then LastWrite(ws, k) else Get(d, k))
  {
    if ws != [] {
      AssignAllGet(d, ws[..|ws| - 1], k);
      AssignGet(AssignAll(d, ws[..|ws| - 1]), ws[|ws| - 1].0, ws[|ws| - 1].1);
    }
  }

  /** Assignments only ever add keys at the end: the keys present before are
      a prefix of the keys afterwards, so a key stays where it was first put. */
  lemma {:induction false} AssignAllKeysPrefix<V>(d: OrderedDict<V>, ws: seq<(string, V)>)
    ensures Keys(d) <= Keys(AssignAll(d, ws))
  {
    if ws != [] {
      AssignAllKeysPrefix(d, ws[..|ws| - 1]);
      AssignKeys(AssignAll(d, ws[..|ws| - 1]), ws[|ws| - 1].0, ws[|ws| - 1].1);
    }
  }

  /** Running `ws` is running its first `n` assignments and then the rest. */
  lemma {:induction false} AssignAllSplit<V>(d: OrderedDict<V>, ws: seq<(string, V)>, n: nat)
    requires n <= |ws|
    ensures AssignAll(d, ws) == AssignAll(AssignAll(d, ws[..n]), ws[n..])
    decreases |ws|
  {
    if n < |ws| {
      AssignAllSplit(d, ws[..|ws| - 1], n);
      assert ws[..|ws| - 1][..n] == ws[..n];
      assert ws[n..][..|ws[n..]| - 1] == ws[..|ws| - 1][n..];
    } else {
      assert ws[..n] == ws;
    }
  }

  /** Keys already present after the first `n` assignments keep their
      positions through the rest: a re-assigned key keeps its first place. */
  lemma KeyPositionStable<V>(ws: seq<(string, V)>, n: nat)
    requires n <= |ws|
    ensures Keys(AssignAll([], ws[..n])) <= Keys(AssignAll([], ws))
  {
    AssignAllSplit([], ws, n);
    AssignAllKeysPrefix(AssignAll([], ws[..n]), ws[n..]);
  }

  /** Runs of assignments keep the keys duplicate-free. */
  lemma {:induction false} AssignAllNoDup<V>(d: OrderedDict<V>, ws: seq<(string, V)>)
    requires NoDup(Keys(d))
    ensures NoDup(Keys(AssignAll(d, ws)))
  {
    if ws != [] {
      AssignAllNoDup(d, ws[..|ws| - 1]);
      var last := ws[|ws| - 1];
      AssignNoDup(AssignAll(d, ws[..|ws| - 1]), last.0, last.1);
    }
  }

  /** Some assignment in `ws` writes `k` exactly when `k` is among its keys. */
  lemma {:induction false} LastWriteSome<V>(ws: seq<(string, V)>, k: string)
    ensures LastWrite(ws, k).Some? <==> k in Keys(ws)
  {
    if ws != [] {
      LastWriteSome(ws[..|ws| - 1], k);
      assert Keys(ws) == Keys(ws[..|ws| - 1]) + [ws[|ws| - 1].0];
    }
  }

  /** The keys after a run of assignments are the old keys and the written ones. */
  lemma AssignAllKeys<V>(d: OrderedDict<V>, ws: seq<(string, V)>, k: string)
    ensures k in Keys(AssignAll(d, ws)) <==> k in Keys(d) || k in Keys(ws)
  {
    AssignAllGet(d, ws, k);
    LastWriteSome(ws, k);
  }

  /** When every assignment writes a fresh key, the dictionary is the old one
      with the assignments appended as entries, in order. */
  lemma {:induction false} AssignAllFresh<V>(d: OrderedDict<V>, ws: seq<(string, V)>)
    requires NoDup(Keys(d) + Keys(ws))
    ensures AssignAll(d, ws) == d + ws
  {
    if ws != [] {
      var init := ws[..|ws| - 1];
      var last := ws[|ws| - 1];
      assert Keys(d) + Keys(ws) == (Keys(d) + Keys(init)) + [last.0];
      assert Keys(d + init) == Keys(d) + Keys(init);
      NoDupSplit(Keys(d) + Keys(init), [last.0]);
      AssignAllFresh(d, init);
      AssignKeys(d + init, last.0, last.1);
      assert d + ws == (d + init) + [last];
    }
  }

  /** In a dictionary without repeated keys, each entry is what `get` finds
      under its key. */
  lemma {:induction false} GetAt<V>(d: OrderedDict<V>, i: nat)
    requires NoDup(Keys(d)) && i < |d|
    ensures Get(d, d[i].0) == Some(d[i].1)
  {
    if i > 0 {
      assert Keys(d)[0] != Keys(d)[i];
      var rest := d[1..];
      assert NoDup(Keys(rest)) by {
        forall a, b | 0 <= a < b < |rest| ensures Keys(rest)[a] != Keys(rest)[b] {
          assert Keys(d)[a + 1] != Keys(d)[b + 1];
        }
      }
      GetAt(rest, i - 1);
    }
  }

  /** When every assignment writes a fresh key, each is found under its key. */
  lemma FreshGet<V>(ws: seq<(string, V)>, i: nat)
    requires NoDup(Keys(ws)) && i < |ws|
    ensures Get(AssignAll([], ws), ws[i].0) == Some(ws[i].1)
  {
    assert Keys<V>([]) + Keys(ws) == Keys(ws);
    AssignAllFresh([], ws);
    assert [] + ws == ws;
    GetAt(ws, i);
  }

  /** Helper: when `ws[m]` writes `k` and nothing after it does, that write
      is the last one. */
  lemma {:induction false} LastWriteAt<V>(ws: seq<(string, V)>, m: nat, k: string)
    requires m < |ws| && ws[m].0 == k
    requires forall j :: m < j < |ws| ==> ws[j].0 != k
    ensures LastWrite(ws, k) == Some(ws[m].1)
  {
    if m < |ws| - 1 {
      LastWriteAt(ws[..|ws| - 1], m, k);
    }
  }

  /** The last write to a key is what the dictionary holds for it. */
  lemma LastWins<V>(ws: seq<(string, V)>, m: nat, k: string)
    requires m < |ws| && ws[m].0 == k
    requires forall j :: m < j < |ws| ==> ws[j].0 != k
    ensures Get(AssignAll([], ws), k) == Some(ws[m].1)
  {
    LastWriteAt(ws, m, k);
    AssignAllGet([], ws, k);
  }
}
