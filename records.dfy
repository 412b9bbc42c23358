/**
 * A JavaScript plain object used as a string dictionary (`Record<string, string>`): a sequence
 * of entries with distinct keys, in the order `Object.entries` yields them.
 */
module Records {
  import opened Wrappers

  datatype Entry = Entry(key: string, value: string)

  predicate DistinctKeys(es: seq<Entry>) {
    forall i, j :: 0 <= i < j < |es| ==> es[i].key != es[j].key
  }

  type Record = es: seq<Entry> | DistinctKeys(es) witness []

  /** `Object.keys(r)`. */
  function KeyList(r: seq<Entry>): (ks: seq<string>)
    ensures |ks| == |r| && forall i :: 0 <= i < |r| ==> ks[i] == r[i].key
  {
    seq(|r|, i requires 0 <= i < |r| => r[i].key)
  }

  function Keys(r: seq<Entry>): set<string> {
    set i | 0 <= i < |r| :: r[i].key
  }

  /** Where key `k` sits, if anywhere. */
  function IndexOf(r: seq<Entry>, k: string): (o: Option<nat>)
    ensures o.Some? ==> o.value < |r| && r[o.value].key == k
    ensures o.None? ==> k !in Keys(r)
  {
    if |r| == 0 then None
    else if r[|r| - 1].key == k then Some(|r| - 1)
    else IndexOf(r[..|r| - 1], k)
  }

  /** `r[k]`, `undefined` when absent. */
  function Get(r: seq<Entry>, k: string): Option<string> {
    match IndexOf(r, k)
    case Some(i) => Some(r[i].value)
    case None => None
  }

  /** `r[k] = v`: an existing key keeps its place and takes the new value; a new key goes last. */
  function Put(r: Record, k: string, v: string): (r': Record)
  {
    match IndexOf(r, k)
    case Some(i) => r[i := Entry(k, v)]
    case None => r + [Entry(k, v)]
  }

  lemma GetAt(r: Record, i: nat)
    requires i < |r|
    ensures Get(r, r[i].key) == Some(r[i].value)
  {
  }

  /** Assignment adds its key, moves no other key and reads back the value it stored. */
  lemma PutSpec(r: Record, k: string, v: string)
    ensures Keys(Put(r, k, v)) == Keys(r) + {k}
    ensures KeyList(Put(r, k, v)) == if k in Keys(r) then KeyList(r) else KeyList(r) + [k]
    ensures Get(Put(r, k, v), k) == Some(v)
    ensures forall k' :: k' != k ==> Get(Put(r, k, v), k') == Get(r, k')
  {
    match IndexOf(r, k)
    case Some(i) => PutExisting(r, k, v, i);
    case None => PutFresh(r, k, v);
  }

  /** Assigning to a key already present replaces that entry in place. */
  lemma PutExisting(r: Record, k: string, v: string, i: nat)
    requires IndexOf(r, k) == Some(i)
    ensures Put(r, k, v) == r[i := Entry(k, v)]
    ensures Keys(Put(r, k, v)) == Keys(r) + {k}
    ensures KeyList(Put(r, k, v)) == KeyList(r)
    ensures Get(Put(r, k, v), k) == Some(v)
    ensures forall k' :: k' != k ==> Get(Put(r, k, v), k') == Get(r, k')
  {
    var e := Entry(k, v);
    KeysReplace(r, i, e);
    forall k' | k' != k ensures Get(r[i := e], k') == Get(r, k') {
      IndexOfReplace(r, i, e, k');
    }
    GetAt(Put(r, k, v), i);
  }

  /** Assigning to a new key appends an entry. */
  lemma PutFresh(r: Record, k: string, v: string)
    requires k !in Keys(r)
    ensures Put(r, k, v) == r + [Entry(k, v)]
    ensures Keys(Put(r, k, v)) == Keys(r) + {k}
    ensures KeyList(Put(r, k, v)) == KeyList(r) + [k]
    ensures Get(Put(r, k, v), k) == Some(v)
    ensures forall k' :: k' != k ==> Get(Put(r, k, v), k') == Get(r, k')
  {
    var e := Entry(k, v);
    KeysAppend(r, e);
    KeyListAppend(r, e);
    forall k' | k' != k ensures Get(r + [e], k') == Get(r, k') {
      GetAppend(r, e, k');
    }
    GetAppend(r, e, k);
  }

  lemma KeysReplace(a: seq<Entry>, i: nat, e: Entry)
    requires i < |a| && a[i].key == e.key
    ensures Keys(a[i := e]) == Keys(a)
  {
    var b := a[i := e];
    forall x | x in Keys(a) ensures x in Keys(b) { var j :| 0 <= j < |a| && a[j].key == x; assert b[j].key == x; }
    forall x | x in Keys(b) ensures x in Keys(a) { var j :| 0 <= j < |b| && b[j].key == x; assert a[j].key == x; }
  }

  lemma KeysAppend(a: seq<Entry>, e: Entry)
    ensures Keys(a + [e]) == Keys(a) + {e.key}
  {
    var b := a + [e];
    forall x | x in Keys(a) ensures x in Keys(b) { var j :| 0 <= j < |a| && a[j].key == x; assert b[j].key == x; }
    assert b[|a|].key == e.key;
  }

  lemma KeyListAppend(a: seq<Entry>, e: Entry)
    ensures KeyList(a + [e]) == KeyList(a) + [e.key]
  {
  }

  /** Lookup in an extended sequence finds the new entry first. */
  lemma GetAppend(a: seq<Entry>, e: Entry, k: string)
    ensures Get(a + [e], k) == if k == e.key then Some(e.value) else Get(a, k)
  {
    assert (a + [e])[..|a|] == a;
  }

  /** Replacing an entry does not move the position of any other key. */
  lemma {:induction false} IndexOfReplace(a: seq<Entry>, i: nat, e: Entry, k: string)
    requires i < |a| && a[i].key == e.key && k != e.key
    ensures IndexOf(a[i := e], k) == IndexOf(a, k)
    decreases |a|
  {
    var n := |a| - 1;
    if a[n].key != k {
      if i < n {
        assert a[i := e][..n] == a[..n][i := e];
        IndexOfReplace(a[..n], i, e, k);
      } else {
        assert a[i := e][..n] == a[..n];
      }
    }
  }

  /** Every prefix of a record is a record. */
  lemma PrefixDistinct(r: Record, n: nat)
    requires n <= |r|
    ensures DistinctKeys(r[..n])
  {
  }

  /** The key list of a non-empty sequence ends with its last entry's key. */
  lemma KeyListLast(r: seq<Entry>)
    requires |r| > 0
    ensures KeyList(r) == KeyList(r[..|r| - 1]) + [r[|r| - 1].key]
  {
  }

  /** Records with the same key list have the same key set. */
  lemma SameKeys(a: seq<Entry>, b: seq<Entry>)
    requires KeyList(a) == KeyList(b)
    ensures Keys(a) == Keys(b)
  {
    forall k | k in Keys(a) ensures k in Keys(b) {
      var i :| 0 <= i < |a| && a[i].key == k;
      assert KeyList(b)[i] == k;
    }
    forall k | k in Keys(b) ensures k in Keys(a) {
      var i :| 0 <= i < |b| && b[i].key == k;
      assert KeyList(a)[i] == k;
    }
  }

  /**
   * `for (const [key, value] of Object.entries(data)) out[key] = f(i, value)`, where `i` is the
   * entry's position, and a failure of `f` aborts the loop (an exception leaving the function).
   */
  function MapValues<E>(data: seq<Entry>, f: (nat, string) -> Result<string, E>): Result<Record, E>
    decreases |data|
  {
    if |data| == 0 then Success([])
    else
      var n := |data| - 1;
      match MapValues(data[..n], f)
      case Failure(err) => Failure(err)
      case Success(acc) =>
        match f(n, data[n].value)
        case Failure(err) => Failure(err)
        case Success(s) => Success(Put(acc, data[n].key, s))
  }

  /** The loop completes exactly when `f` succeeds on every entry. */
  lemma {:induction false} MapValuesSucceeds<E>(data: seq<Entry>, f: (nat, string) -> Result<string, E>)
    ensures MapValues(data, f).Success? <==> forall i :: 0 <= i < |data| ==> f(i, data[i].value).Success?
    decreases |data|
  {
    if |data| > 0 {
      var n := |data| - 1;
      var prefix: seq<Entry> := data[..n];
      MapValuesSucceeds(prefix, f);
      assert forall i :: 0 <= i < n ==> prefix[i] == data[i];
    }
  }

  /** A completed loop over a non-empty record appends the last entry's result to the loop over the rest. */
  lemma MapValuesLast<E>(data: seq<Entry>, f: (nat, string) -> Result<string, E>)
    requires |data| > 0 && MapValues(data, f).Success?
    requires MapValues(data[..|data| - 1], f).Success?
    requires data[|data| - 1].key !in Keys(MapValues(data[..|data| - 1], f).value)
    ensures f(|data| - 1, data[|data| - 1].value).Success?
    ensures MapValues(data, f).value
            == MapValues(data[..|data| - 1], f).value
               + [Entry(data[|data| - 1].key, f(|data| - 1, data[|data| - 1].value).value)]
  {
    var n := |data| - 1;
    PutFresh(MapValues(data[..n], f).value, data[n].key, f(n, data[n].value).value);
  }

  /** Distinct keys: the last key is absent from anything keyed like the entries before it. */
  lemma LastKeyFresh(data: Record, acc: seq<Entry>)
    requires |data| > 0 && KeyList(acc) == KeyList(data[..|data| - 1])
    ensures data[|data| - 1].key !in Keys(acc)
  {
    var n := |data| - 1;
    SameKeys(acc, data[..n]);
    forall j | 0 <= j < n ensures data[..n][j].key != data[n].key { assert data[..n][j] == data[j]; }
  }

  /** A completed loop's record has the input's keys, in the input's order. */
  lemma {:induction false} MapValuesKeys<E>(data: Record, f: (nat, string) -> Result<string, E>)
    ensures MapValues(data, f).Success? ==> KeyList(MapValues(data, f).value) == KeyList(data)
    decreases |data|
  {
    if |data| > 0 && MapValues(data, f).Success? {
      var n := |data| - 1;
      PrefixDistinct(data, n);
      MapValuesKeys(data[..n], f);
      LastKeyFresh(data, MapValues(data[..n], f).value);
      MapValuesLast(data, f);
      KeyListLast(data);
      KeyListLast(MapValues(data, f).value);
    }
  }

  /** Each entry of a completed loop's record holds `f` of the input entry at the same position. */
  lemma {:induction false} MapValuesValues<E>(data: Record, f: (nat, string) -> Result<string, E>)
    ensures MapValues(data, f).Success? ==>
              && |MapValues(data, f).value| == |data|
              && forall i :: 0 <= i < |data| ==> f(i, data[i].value) == Success(MapValues(data, f).value[i].value)
    decreases |data|
  {
    if |data| > 0 && MapValues(data, f).Success? {
      var n := |data| - 1;
      PrefixDistinct(data, n);
      var prefix: Record := data[..n];
      MapValuesValues(prefix, f);
      MapValuesKeys(prefix, f);
      LastKeyFresh(data, MapValues(prefix, f).value);
      MapValuesLast(data, f);
      var acc, out := MapValues(prefix, f).value, MapValues(data, f).value;
      forall i | 0 <= i < n ensures f(i, data[i].value) == Success(out[i].value) {
        assert prefix[i] == data[i] && out[i] == acc[i];
      }
    }
  }

  /**
   * A completed loop's record has the input's keys, in the input's order, each holding `f` of
   * that key's own value.
   */
  lemma MapValuesShape<E>(data: Record, f: (nat, string) -> Result<string, E>)
    ensures MapValues(data, f).Success? ==>
              var out := MapValues(data, f).value;
              && KeyList(out) == KeyList(data)
              && forall i :: 0 <= i < |data| ==> f(i, data[i].value) == Success(out[i].value)
  {
    MapValuesKeys(data, f);
    MapValuesValues(data, f);
  }

  /** A failure in a prefix is the failure of the whole loop: nothing partial is returned. */
  lemma {:induction false} MapValuesPrefixFailure<E>(data: seq<Entry>, f: (nat, string) -> Result<string, E>, m: nat)
    requires m <= |data|
    requires MapValues(data[..m], f).Failure?
    ensures MapValues(data, f) == MapValues(data[..m], f)
    decreases |data| - m
  {
    if m < |data| {
      var next: seq<Entry> := data[..m + 1];
      assert next[..m] == data[..m];
      assert MapValues(next, f) == MapValues(data[..m], f);
      MapValuesPrefixFailure(data, f, m + 1);
    } else {
      assert data[..m] == data;
    }
  }

  /**
   * A failing loop reports the failure of the first entry `f` rejects: the loop over the entries
   * before it completes, and that entry's own failure is the error returned.
   */
  lemma {:induction false} MapValuesFirstFailure<E>(data: seq<Entry>, f: (nat, string) -> Result<string, E>)
    ensures MapValues(data, f).Failure? ==>
              exists i :: 0 <= i < |data| && MapValues(data[..i], f).Success?
                          && f(i, data[i].value) == Failure(MapValues(data, f).error)
    decreases |data|
  {
    if |data| > 0 && MapValues(data, f).Failure? {
      var n := |data| - 1;
      var prefix: seq<Entry> := data[..n];
      MapValuesFirstFailure(prefix, f);
      if MapValues(prefix, f).Failure? {
        var i :| 0 <= i < |prefix| && MapValues(prefix[..i], f).Success?
                 && f(i, prefix[i].value) == Failure(MapValues(prefix, f).error);
        assert prefix[..i] == data[..i] && prefix[i] == data[i];
      } else {
        assert MapValues(data[..n], f).Success?;
      }
    }
  }

  /** One more entry: the loop over `data[..i + 1]` extends the loop over `data[..i]`. */
  lemma MapValuesStep<E>(data: seq<Entry>, f: (nat, string) -> Result<string, E>, i: nat)
    requires i < |data|
    ensures MapValues(data[..i + 1], f)
            == match MapValues(data[..i], f)
               case Failure(err) => Failure(err)
               case Success(acc) =>
                 match f(i, data[i].value)
                 case Failure(err) => Failure(err)
                 case Success(s) => Success(Put(acc, data[i].key, s))
  {
    var next: seq<Entry> := data[..i + 1];
    assert next[..i] == data[..i];
  }

  /** The loop itself, entry by entry. */
  method MapValuesLoop<E>(data: seq<Entry>, f: (nat, string) -> Result<string, E>) returns (r: Result<Record, E>)
    ensures r == MapValues(data, f)
  {
    var acc: Record := [];
    var i := 0;
    while i < |data|
      invariant 0 <= i <= |data|
      invariant MapValues(data[..i], f) == Success(acc)
    {
      var s := f(i, data[i].value);
      MapValuesStep(data, f, i);
      if s.Failure? {
        MapValuesPrefixFailure(data, f, i + 1);
        return Failure(s.error);
      }
      acc := Put(acc, data[i].key, s.value);
      i := i + 1;
    }
    assert data[..i] == data;
    r := Success(acc);
  }
}
