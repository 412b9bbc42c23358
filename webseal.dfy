/**
 * src/components/useWebSeal.ts: the form-state hook. The key/value editor's three list
 * reducers, the collection of the form into a request's `data`, and the hook's state with the
 * actions that change it.
 */
module WebSealHook {
  import opened Wrappers
  import opened Records
  import opened Text
  import SealApi
  import Forge
  import Errors

  datatype KeyValuePair = KeyValuePair(id: string, key: string, value: string)

  /** The `field` argument of `updateKeyValue`: `'key' | 'value'`. */
  datatype Field = Key | Value

  /** A new row: a fresh id (a `crypto.randomUUID()` in the source), empty key and value. */
  function EmptyPair(id: string): KeyValuePair {
    KeyValuePair(id, "", "")
  }

  function Ids(kvs: seq<KeyValuePair>): (ids: seq<string>)
    ensures |ids| == |kvs| && forall i :: 0 <= i < |kvs| ==> ids[i] == kvs[i].id
  {
    seq(|kvs|, i requires 0 <= i < |kvs| => kvs[i].id)
  }

  predicate DistinctIds(kvs: seq<KeyValuePair>) {
    forall i, j :: 0 <= i < j < |kvs| ==> kvs[i].id != kvs[j].id
  }

  // ---------------------------------------------------------------- reducers

  /** `addKeyValue`: `[...prev, { id, key: '', value: '' }]`. */
  function AddPair(kvs: seq<KeyValuePair>, id: string): seq<KeyValuePair> {
    kvs + [EmptyPair(id)]
  }

  /** `prev.filter(kv => kv.id !== id)`. */
  function WithoutId(kvs: seq<KeyValuePair>, id: string): seq<KeyValuePair>
    decreases |kvs|
  {
    if |kvs| == 0 then []
    else (if kvs[0].id == id then [] else [kvs[0]]) + WithoutId(kvs[1..], id)
  }

  /** `removeKeyValue`: a list of one row is left alone. */
  function RemovePair(kvs: seq<KeyValuePair>, id: string): seq<KeyValuePair> {
    if |kvs| > 1 then WithoutId(kvs, id) else kvs
  }

  /** `{ ...kv, [field]: value }`. */
  function SetField(kv: KeyValuePair, field: Field, value: string): KeyValuePair {
    match field
    case Key => kv.(key := value)
    case Value => kv.(value := value)
  }

  /** `updateKeyValue`: `prev.map(kv => kv.id === id ? { ...kv, [field]: value } : kv)`. */
  function UpdatePair(kvs: seq<KeyValuePair>, id: string, field: Field, value: string): seq<KeyValuePair> {
    seq(|kvs|, i requires 0 <= i < |kvs| => if kvs[i].id == id then SetField(kvs[i], field, value) else kvs[i])
  }

  /**
   * Adding keeps every existing row in place and order and puts exactly one empty row last; with
   * a fresh id the ids stay distinct.
   */
  lemma AddPairSpec(kvs: seq<KeyValuePair>, id: string)
    ensures |AddPair(kvs, id)| == |kvs| + 1
    ensures AddPair(kvs, id)[..|kvs|] == kvs
    ensures AddPair(kvs, id)[|kvs|] == KeyValuePair(id, "", "")
    ensures DistinctIds(kvs) && id !in Ids(kvs) ==> DistinctIds(AddPair(kvs, id))
  {
    if DistinctIds(kvs) && id !in Ids(kvs) {
      forall i, j | 0 <= i < j < |kvs| + 1 ensures AddPair(kvs, id)[i].id != AddPair(kvs, id)[j].id {
        if j == |kvs| {
          assert Ids(kvs)[i] == kvs[i].id;
        }
      }
    }
  }

  /** The filter keeps exactly the rows with another id. */
  lemma {:induction false} WithoutIdMembers(kvs: seq<KeyValuePair>, id: string)
    ensures forall kv :: kv in WithoutId(kvs, id) <==> kv in kvs && kv.id != id
    decreases |kvs|
  {
    if |kvs| > 0 {
      WithoutIdMembers(kvs[1..], id);
      assert kvs == [kvs[0]] + kvs[1..];
    }
  }

  /** It keeps their order: filtering a concatenation filters each part. */
  lemma {:induction false} WithoutIdAppend(a: seq<KeyValuePair>, b: seq<KeyValuePair>, id: string)
    ensures WithoutId(a + b, id) == WithoutId(a, id) + WithoutId(b, id)
    decreases |a|
  {
    if |a| > 0 {
      assert (a + b)[1..] == a[1..] + b;
      WithoutIdAppend(a[1..], b, id);
    } else {
      assert a + b == b;
    }
  }

  /** Removing an id no row has changes nothing. */
  lemma {:induction false} WithoutIdAbsent(kvs: seq<KeyValuePair>, id: string)
    requires forall i :: 0 <= i < |kvs| ==> kvs[i].id != id
    ensures WithoutId(kvs, id) == kvs
    decreases |kvs|
  {
    if |kvs| > 0 {
      WithoutIdAbsent(kvs[1..], id);
    }
  }

  /** With distinct ids the filter drops at most one row and the survivors stay distinct. */
  lemma {:induction false} WithoutIdDistinct(kvs: seq<KeyValuePair>, id: string)
    requires DistinctIds(kvs)
    ensures |WithoutId(kvs, id)| >= |kvs| - 1
    ensures DistinctIds(WithoutId(kvs, id))
    decreases |kvs|
  {
    if |kvs| > 0 {
      var rest := kvs[1..];
      assert DistinctIds(rest) by {
        forall i, j | 0 <= i < j < |rest| ensures rest[i].id != rest[j].id {
          assert rest[i] == kvs[i + 1] && rest[j] == kvs[j + 1];
        }
      }
      WithoutIdDistinct(rest, id);
      if kvs[0].id == id {
        assert forall i :: 0 <= i < |rest| ==> rest[i].id != id by {
          forall i | 0 <= i < |rest| ensures rest[i].id != id { assert rest[i] == kvs[i + 1]; }
        }
        WithoutIdAbsent(rest, id);
      } else {
        WithoutIdMembers(rest, id);
        var r := WithoutId(rest, id);
        forall j | 0 <= j < |r| ensures kvs[0].id != r[j].id {
          assert r[j] in rest;
          var m :| 0 <= m < |rest| && rest[m] == r[j];
          assert rest[m] == kvs[m + 1];
        }
        assert WithoutId(kvs, id) == [kvs[0]] + r;
      }
    }
  }

  /**
   * Removing leaves a one-row list unchanged, otherwise drops exactly the rows with that id and
   * keeps the rest in order; when ids are distinct the list never becomes empty and stays distinct.
   */
  lemma RemovePairSpec(kvs: seq<KeyValuePair>, id: string)
    ensures |kvs| <= 1 ==> RemovePair(kvs, id) == kvs
    ensures |kvs| > 1 ==> forall kv :: kv in RemovePair(kvs, id) <==> kv in kvs && kv.id != id
    ensures |kvs| > 1 ==> forall a, b :: kvs == a + b ==>
              RemovePair(kvs, id) == WithoutId(a, id) + WithoutId(b, id)
    ensures DistinctIds(kvs) && |kvs| >= 1 ==>
              |RemovePair(kvs, id)| >= 1 && DistinctIds(RemovePair(kvs, id))
  {
    WithoutIdMembers(kvs, id);
    forall a, b | kvs == a + b ensures WithoutId(kvs, id) == WithoutId(a, id) + WithoutId(b, id) {
      WithoutIdAppend(a, b, id);
    }
    if DistinctIds(kvs) {
      WithoutIdDistinct(kvs, id);
    }
  }

  /**
   * Updating keeps length and ids, leaves every row with another id as it was, and in a matching
   * row changes only the named field; distinct ids stay distinct.
   */
  lemma UpdatePairSpec(kvs: seq<KeyValuePair>, id: string, field: Field, value: string)
    ensures |UpdatePair(kvs, id, field, value)| == |kvs|
    ensures Ids(UpdatePair(kvs, id, field, value)) == Ids(kvs)
    ensures forall i :: 0 <= i < |kvs| && kvs[i].id != id ==> UpdatePair(kvs, id, field, value)[i] == kvs[i]
    ensures forall i :: 0 <= i < |kvs| && kvs[i].id == id ==>
              var kv := UpdatePair(kvs, id, field, value)[i];
              && kv.id == id
              && kv.key == (if field == Key then value else kvs[i].key)
              && kv.value == (if field == Value then value else kvs[i].value)
    ensures DistinctIds(kvs) ==> DistinctIds(UpdatePair(kvs, id, field, value))
  {
    var r := UpdatePair(kvs, id, field, value);
    assert forall i :: 0 <= i < |kvs| ==> r[i].id == kvs[i].id;
  }

  // ---------------------------------------------------------------- collecting the form

  /**
   * The `data` object `handleSubmit` builds: rows in order, each with a non-blank key stored
   * under its trimmed key with its value as typed.
   */
  function Collected(kvs: seq<KeyValuePair>): Record
    decreases |kvs|
  {
    if |kvs| == 0 then []
    else
      var acc := Collected(kvs[..|kvs| - 1]);
      var kv := kvs[|kvs| - 1];
      if Trim(kv.key) != "" then Put(acc, Trim(kv.key), kv.value) else acc
  }

  /** The `keyValues.forEach` loop. */
  method CollectData(kvs: seq<KeyValuePair>) returns (data: Record)
    ensures data == Collected(kvs)
  {
    data := [];
    for i := 0 to |kvs|
      invariant data == Collected(kvs[..i])
    {
      assert kvs[..i + 1][..i] == kvs[..i];
      var k := Trim(kvs[i].key);
      if k != "" {
        data := Put(data, k, kvs[i].value);
      }
    }
    assert kvs[..|kvs|] == kvs;
  }

  /** The last row whose trimmed key is `k`. */
  function LastWith(kvs: seq<KeyValuePair>, k: string): (o: Option<nat>)
    ensures o.Some? ==> o.value < |kvs| && Trim(kvs[o.value].key) == k
                        && forall j :: o.value < j < |kvs| ==> Trim(kvs[j].key) != k
    ensures o.None? ==> forall j :: 0 <= j < |kvs| ==> Trim(kvs[j].key) != k
    decreases |kvs|
  {
    if |kvs| == 0 then None
    else if Trim(kvs[|kvs| - 1].key) == k then Some(|kvs| - 1)
    else LastWith(kvs[..|kvs| - 1], k)
  }

  /**
   * Reading the collected data back: a blank key is never present, and a non-blank key holds the
   * untrimmed value of the last row whose trimmed key it is (a later duplicate overwrites).
   */
  lemma {:induction false} CollectedGet(kvs: seq<KeyValuePair>, k: string)
    ensures Get(Collected(kvs), k) ==
              if k == "" || LastWith(kvs, k).None? then None else Some(kvs[LastWith(kvs, k).value].value)
    decreases |kvs|
  {
    if |kvs| > 0 {
      var prefix := kvs[..|kvs| - 1];
      var kv := kvs[|kvs| - 1];
      CollectedGet(prefix, k);
      if Trim(kv.key) != "" {
        PutSpec(Collected(prefix), Trim(kv.key), kv.value);
      }
      if Trim(kv.key) != k {
        assert LastWith(kvs, k) == LastWith(prefix, k);
        if LastWith(kvs, k).Some? {
          assert kvs[LastWith(kvs, k).value] == prefix[LastWith(kvs, k).value];
        }
      }
    }
  }

  /** The collected keys are exactly the non-blank trimmed keys of the rows. */
  lemma CollectedKeys(kvs: seq<KeyValuePair>)
    ensures forall k :: k in Keys(Collected(kvs)) <==>
              k != "" && exists i :: 0 <= i < |kvs| && Trim(kvs[i].key) == k
  {
    var r := Collected(kvs);
    forall k ensures k in Keys(r) <==> k != "" && exists i :: 0 <= i < |kvs| && Trim(kvs[i].key) == k {
      CollectedGet(kvs, k);
      var o := IndexOf(r, k);
      if o.Some? {
        assert r[o.value].key in Keys(r);
      }
    }
  }

  /** The submit guard: nothing is collected exactly when every row's key is blank. */
  lemma CollectedEmpty(kvs: seq<KeyValuePair>)
    ensures |Collected(kvs)| == 0 <==> forall i :: 0 <= i < |kvs| ==> Trim(kvs[i].key) == ""
  {
    CollectedKeys(kvs);
    var c := Collected(kvs);
    if |c| > 0 {
      assert c[0].key in Keys(c);
    }
    forall i | 0 <= i < |kvs| && Trim(kvs[i].key) != "" ensures |c| > 0 {
      assert Trim(kvs[i].key) in Keys(c);
    }
  }

  // ---------------------------------------------------------------- submit

  const NoPairsMessage := "\U{CD5C}\U{C18C} \U{D558}\U{B098}\U{C758} key-value \U{C30D}\U{C774} \U{D544}\U{C694}\U{D569}\U{B2C8}\U{B2E4}"
  const RequestFailedMessage := "Seal \U{C694}\U{CCAD} \U{C2E4}\U{D328}"
  const UnknownErrorMessage := "\U{C54C} \U{C218} \U{C5C6}\U{B294} \U{C624}\U{B958}\U{AC00} \U{BC1C}\U{C0DD}\U{D588}\U{C2B5}\U{B2C8}\U{B2E4}"

  /** The body `handleSubmit` posts, or `None` when the guard stops it first. */
  function SubmitRequest(publicKey: string, kvs: seq<KeyValuePair>, namespace: string, secretName: string)
    : Option<SealApi.SealRequest>
  {
    var data := Collected(kvs);
    if |data| == 0 then None
    else Some(SealApi.SealRequest(Some(publicKey), Some(data), Some(namespace), Some(secretName)))
  }

  /**
   * A request is posted exactly when some row has a non-blank key. Its data carries only
   * non-blank keys, so the server's data guard never rejects it; and since the form always sends
   * `namespace` and `name`, the server's defaults never apply: an emptied field arrives empty.
   */
  lemma SubmitRequestSpec(f: Forge.Primitives, entropy: Forge.Entropy,
                          publicKey: string, kvs: seq<KeyValuePair>, namespace: string, secretName: string)
    ensures SubmitRequest(publicKey, kvs, namespace, secretName).None?
            <==> forall i :: 0 <= i < |kvs| ==> Trim(kvs[i].key) == ""
    ensures SubmitRequest(publicKey, kvs, namespace, secretName).Some? ==>
              var req := SubmitRequest(publicKey, kvs, namespace, secretName).value;
              && "" !in Keys(req.data.value)
              && SealApi.Namespace(req) == namespace
              && SealApi.Name(req) == secretName
              && SealApi.SealSecrets(f, entropy, req) != Wrappers.Failure(Errors.DataRequired)
              && SealApi.SealSecretsAsWritten(f, entropy, req) != Wrappers.Failure(Errors.DataRequired)
  {
    CollectedEmpty(kvs);
    CollectedKeys(kvs);
    var req := SubmitRequest(publicKey, kvs, namespace, secretName);
    if req.Some? {
      SealApi.GuardOrder(f, entropy, req.value, SealApi.Namespace(req.value), SealApi.Name(req.value));
      SealApi.GuardOrder(f, entropy, req.value, SealApi.Undefined, SealApi.Undefined);
    }
  }

  /** How the posted request ended, as `handleSubmit`'s `try` sees it. */
  datatype Reply =
    | Ok(response: SealApi.SealResponse)   // `response.ok`, body parsed
    | NotOk(errorField: Option<string>)    // `!response.ok`, the body's `error` field
    | Thrown(isError: bool, message: string) // `fetch` or `json()` threw; `isError` is `err instanceof Error`

  /** The message `handleSubmit` shows for a failed reply. */
  function ReplyError(reply: Reply): Option<string> {
    match reply
    case Ok(_) => None
    case NotOk(e) => Some(if e.None? || e.value == "" then RequestFailedMessage else e.value)
    case Thrown(isError, message) => Some(if isError then message else UnknownErrorMessage)
  }

  /** `responseData.error || 'Seal 요청 실패'`: the fallback replaces an absent or empty error. */
  lemma ReplyErrorSpec(reply: Reply)
    ensures ReplyError(reply).None? <==> reply.Ok?
    ensures reply.NotOk? ==> ReplyError(reply).value != ""
    ensures reply.NotOk? && reply.errorField.Some? && reply.errorField.value != "" ==>
              ReplyError(reply) == reply.errorField
    ensures reply.NotOk? && (reply.errorField.None? || reply.errorField.value == "") ==>
              ReplyError(reply) == Some(RequestFailedMessage)
    ensures reply.Thrown? && reply.isError ==> ReplyError(reply) == Some(reply.message)
    ensures reply.Thrown? && !reply.isError ==> ReplyError(reply) == Some(UnknownErrorMessage)
  {
  }

  // ---------------------------------------------------------------- the hook's state

  class WebSeal {
    var publicKey: string
    var keyValues: seq<KeyValuePair>
    var namespace: string
    var secretName: string
    var result: Option<SealApi.SealResponse>
    var error: Option<string>
    var loading: bool
    var copied: bool

    /** The editor always shows at least one row, and row ids are distinct. */
    ghost predicate Valid()
      reads this
    {
      |keyValues| >= 1 && DistinctIds(keyValues)
    }

    /** The initial state; `id` stands for the `crypto.randomUUID()` of the first row. */
    constructor(id: string)
      ensures Valid()
      ensures publicKey == "" && keyValues == [EmptyPair(id)]
      ensures namespace == "default" && secretName == "my-secret"
      ensures result == None && error == None && !loading && !copied
    {
      publicKey := "";
      keyValues := [EmptyPair(id)];
      namespace := SealApi.DefaultNamespace;
      secretName := SealApi.DefaultName;
      result := None;
      error := None;
      loading := false;
      copied := false;
    }

    method SetPublicKey(value: string)
      modifies this`publicKey
      ensures publicKey == value
    {
      publicKey := value;
    }

    method SetNamespace(value: string)
      modifies this`namespace
      ensures namespace == value
    {
      namespace := value;
    }

    method SetSecretName(value: string)
      modifies this`secretName
      ensures secretName == value
    {
      secretName := value;
    }

    /** `addKeyValue`; the new row's id is fresh, as a random UUID is. */
    method AddKeyValue(id: string)
      requires Valid() && id !in Ids(keyValues)
      modifies this`keyValues
      ensures keyValues == AddPair(old(keyValues), id)
      ensures Valid()
    {
      AddPairSpec(keyValues, id);
      keyValues := AddPair(keyValues, id);
    }

    method RemoveKeyValue(id: string)
      requires Valid()
      modifies this`keyValues
      ensures keyValues == RemovePair(old(keyValues), id)
      ensures Valid()
    {
      RemovePairSpec(keyValues, id);
      keyValues := RemovePair(keyValues, id);
    }

    method UpdateKeyValue(id: string, field: Field, value: string)
      requires Valid()
      modifies this`keyValues
      ensures keyValues == UpdatePair(old(keyValues), id, field, value)
      ensures Valid()
    {
      UpdatePairSpec(keyValues, id, field, value);
      keyValues := UpdatePair(keyValues, id, field, value);
    }

    /**
     * `handleSubmit` up to the `fetch`: clear error and result, collect the rows, and either stop
     * with the guard's message or return the request to post, with `loading` set.
     */
    method Submit() returns (request: Option<SealApi.SealRequest>)
      modifies this`error, this`result, this`loading
      ensures request == SubmitRequest(publicKey, keyValues, namespace, secretName)
      ensures result == None
      ensures request.None? ==> error == Some(NoPairsMessage) && !loading
      ensures request.Some? ==> error == None && loading
    {
      error := None;
      result := None;
      loading := true;
      var data := CollectData(keyValues);
      if |data| == 0 {
        error := Some(NoPairsMessage);
        loading := false;
        return None;
      }
      request := Some(SealApi.SealRequest(Some(publicKey), Some(data), Some(namespace), Some(secretName)));
    }

    /** `handleSubmit` after the `fetch`: store the response or the error; `finally`, stop loading. */
    method Complete(reply: Reply)
      modifies this`error, this`result, this`loading
      ensures !loading
      ensures reply.Ok? ==> result == Some(reply.response) && error == old(error)
      ensures !reply.Ok? ==> error == ReplyError(reply) && result == old(result)
    {
      match reply {
        case Ok(response) =>
          result := Some(response);
        case _ =>
          error := ReplyError(reply);
      }
      loading := false;
    }

    /** `copyToClipboard`: only a result with a non-empty manifest is copied. */
    method CopyToClipboard()
      modifies this`copied
      ensures copied == (old(copied) || (result.Some? && result.value.resourceYaml != ""))
    {
      if result.Some? && result.value.resourceYaml != "" {
        copied := true;
      }
    }

    /** The timer `copyToClipboard` starts. */
    method CopiedTimeout()
      modifies this`copied
      ensures !copied
    {
      copied := false;
    }

    /** `reset`: the initial form, with a fresh row id; `loading` is left as it is. */
    method Reset(id: string)
      modifies this`publicKey, this`keyValues, this`namespace, this`secretName, this`result, this`error, this`copied
      ensures Valid()
      ensures publicKey == "" && keyValues == [EmptyPair(id)]
      ensures namespace == "default" && secretName == "my-secret"
      ensures result == None && error == None && !copied
      ensures loading == old(loading)
    {
      publicKey := "";
      keyValues := [EmptyPair(id)];
      namespace := SealApi.DefaultNamespace;
      secretName := SealApi.DefaultName;
      result := None;
      error := None;
      copied := false;
    }
  }
}
