# web-sealedsecret in Dafny

A model of the sealing core of web-sealedsecret, a small web tool that turns a Kubernetes
secret's key/value pairs into a Bitnami `SealedSecret` manifest in the browser, using a
cluster's sealing certificate.

The model covers:

- **`src/api/crypto.ts`** (module `Hybrid`, with `Pem` and `Manifest`). This is the hybrid seal:
  - The scope label: `strict`, `namespace-wide` or `cluster-wide`, where any other scope falls through to strict.
  - A 32-byte AES-256 session key and a 12-byte GCM nonce per value.
  - The session key wrapped with RSA-OAEP-SHA256.
  - The value's UTF-8 bytes sealed with AES-GCM, with the label as additional data and a 128-bit tag.
  - The wire blob `encryptedSessionKey ++ nonce ++ ciphertext ++ tag` in base 64.
  - `sealData` over a string record, the `parsePublicKey` fallback order, and the manifest builder.
- **`webseal2/src/api/crypto.ts`** (module `Direct`). The second variant seals each value directly with one RSA-OAEP block: no session key, no nonce, no label. Its `parsePublicKey` and `generateSealedSecretYAML` are the same code as in `src/api/crypto.ts`, so they are modelled once, by `Pem` and `Manifest`.
- **`src/api/seal.ts`** (module `SealApi`). The `sealSecrets` request handler: its two guards, the defaults for namespace and name, and the parse → seal → render chain.
- **`src/components/useWebSeal.ts`** (module `WebSealHook`). The form hook:
  - the add, remove and update reducers of the key/value editor;
  - the loop that collects rows into the request's `data`;
  - the hook's state as a class whose methods are the hook's actions.

Supporting modules:

- `Records` models a JavaScript string record as an insertion-ordered list of entries with distinct keys. Its generic value-mapping loop is shared by both `sealData`s.
- `Bytes` holds UTF-8 (RFC 3629), with a decoder and a round-trip proof, and forge's raw-string-to-bytes conversion.
- `Base64` follows section 4 of RFC 4648, with a reference decoder and a round-trip proof.
- `Text` holds `join`, `split` and `trim`. Trim uses the ECMAScript WhiteSpace and LineTerminator sets.
- `Forge` models the node-forge primitives and the random source.

The node-forge primitives are not modelled internally:

- `Forge.Primitives` bundles them as function-valued fields: certificate and key PEM parsing, RSA-OAEP encryption and AES-GCM encryption.
- `Forge.Sound` states the only facts the model relies on. OAEP succeeds exactly when `|message| + 66 <= k`, for a `k`-byte modulus and a 32-byte seed. Its output is `k` bytes. GCM's ciphertext is as long as its plaintext, and its tag is `bits / 8` bytes.
- `forge.random` is an `Entropy` stream. Each value consumes 76 bytes in the hybrid seal: 32 for the session key, 12 for the nonce, and 32 for the OAEP seed that forge draws from the same generator. Each value consumes 32 bytes in the direct seal.

In these places the model follows the code where a stricter reading would be tempting:

- An unrecognised scope string seals with the strict label; it is not rejected.
- `sealData` itself accepts an empty record and returns an empty one. Only `sealSecrets` rejects empty data.
- An empty namespace or name is accepted. `sealSecrets` replaces only an absent one.
- The label is used only as GCM additional data, never as part of the plaintext.

## Model

| member | source | states |
|---|---|---|
| Bytes.EncodeChar | src/api/crypto.ts:79 | one character encodes to one to four UTF-8 bytes, to exactly one byte exactly when it is ASCII, and every byte after the first is a continuation byte |
| Bytes.Utf8Length | src/api/crypto.ts:79 | the UTF-8 plaintext of a value has between `|s|` and `4|s|` bytes, and exactly `|s|` for an ASCII value |
| Bytes.Utf8Ascii | src/api/crypto.ts:79 | an ASCII value's UTF-8 bytes are its character codes, one for one |
| Bytes.Utf8RoundTrip | src/api/crypto.ts:79 | decoding the UTF-8 plaintext recovers the value exactly, so GCM seals the value and nothing else |
| Bytes.Utf8 | src/api/crypto.ts:79 | `createBuffer(plaintext, 'utf8')`: the value's UTF-8 bytes, character by character; its properties are stated by `Bytes.EncodeChar`, `Bytes.Utf8Length`, `Bytes.Utf8Ascii` and `Bytes.Utf8RoundTrip` |
| Bytes.RawBytes | webseal2/src/api/crypto.ts:25 | forge's binary string has one byte per character, and that byte is the character's code for every character up to U+00FF |
| Base64.Encode | src/api/crypto.ts:88 | the encoded text has `EncodedLength(n)` characters for `n` bytes: four for every started group of three |
| Base64.EncodedLengthClosed | src/api/crypto.ts:88 | that length is `4 * ceil(n / 3)` |
| Base64.DecodeEncode | src/api/crypto.ts:88 | the RFC 4648 decoder recovers exactly the encoded bytes, for every byte string |
| Base64.EncodeAlphabet | src/api/crypto.ts:88 | the text holds only alphabet characters and `=`, and never a newline, so it fits on one manifest line |
| Text.SplitJoin | src/api/crypto.ts:138 | splitting the joined lines at the separator gives the lines back when none contains the separator |
| Text.Join | src/api/crypto.ts:138 | `lines.join('\n')`; `Text.SplitJoin` states that splitting undoes it for separator-free lines |
| Text.TrimShape | src/components/useWebSeal.ts:63 | `trim()` removes the maximal white-space prefix and suffix and keeps the infix between them, and a non-empty result starts and ends with non-white characters |
| Text.TrimEmpty | src/components/useWebSeal.ts:63 | a trimmed key is empty (falsy) exactly when the key is all white space |
| Text.TrimIdempotent | src/components/useWebSeal.ts:64 | trimming a trimmed key changes nothing |
| Text.Trim | src/components/useWebSeal.ts:63-64 | `String.prototype.trim`; stated by `Text.TrimShape`, `Text.TrimEmpty` and `Text.TrimIdempotent` |
| Records.PutSpec | src/api/crypto.ts:103 | `r[k] = v` adds `k` to the keys, keeps an existing key's position or appends a new key last, reads back `v`, and leaves every other key's value alone |
| Records.PutExisting | src/api/crypto.ts:103 | assigning to a present key replaces that entry in place, keeping the key list |
| Records.PutFresh | src/api/crypto.ts:103 | assigning to an absent key appends one entry at the end |
| Records.Put | src/api/crypto.ts:103 | `r[k] = v` on a string record; stated by `Records.PutSpec`, `Records.PutExisting` and `Records.PutFresh` |
| Records.MapValuesSucceeds | src/api/crypto.ts:101-105 | the loop completes exactly when the function succeeds on every entry |
| Records.MapValuesKeys | src/api/crypto.ts:101-105 | a completed loop's record has the input's keys in the input's order |
| Records.MapValuesValues | src/api/crypto.ts:101-105 | a completed loop's record is as long as the input, and each entry holds the function's result on the input entry at the same position |
| Records.MapValuesShape | src/api/crypto.ts:101-105 | both together: same keys in the same order, each holding the function's result on that key's own value |
| Records.MapValuesPrefixFailure | src/api/crypto.ts:102-104 | an exception on an entry aborts the whole loop: nothing partial is returned |
| Records.MapValuesFirstFailure | src/api/crypto.ts:102-104 | a failing loop stops at some entry: the loop over the entries before it completes, and the error returned is that entry's own failure |
| Records.MapValuesLoop | src/api/crypto.ts:101-105 | the `for … of Object.entries` loop with early exit computes exactly the specified record or failure |
| Records.MapValues | src/api/crypto.ts:101-105 | the record the entry loop builds, or the first failure; stated by the `Records.MapValues…` lemmas above |
| Forge.Entropy.GetBytes | src/api/crypto.ts:36 | `getBytesSync(n)` yields exactly `n` bytes |
| Forge.GetBytesWindow | src/api/crypto.ts:36 | what `getBytesSync(n)` yields depends only on the next `n` bytes of the stream |
| Pem.ParseOrder | src/api/crypto.ts:6-19 | a parsed certificate's key always wins, the bare key is used only when the certificate does not parse, and the call fails with the parse error exactly when both parses fail (the same code as `webseal2/src/api/crypto.ts` lines 6-19) |
| Pem.ParsePublicKey | src/api/crypto.ts:6-19 | certificate first, bare key as fallback, `ParseFailed` when both fail; stated by `Pem.ParseOrder` |
| Manifest.GenerateSealedSecretYaml | src/api/crypto.ts:111-139 | the line-pushing loop produces exactly the specified document |
| Manifest.DocumentShape | src/api/crypto.ts:116-137 | seven header lines, one `    key: value` line per entry in entry order, five template lines, `12 + n` in all; name and namespace appear under both `metadata` and `template.metadata` (the same template as `webseal2/src/api/crypto.ts` lines 56-77) |
| Manifest.DocumentSplits | src/api/crypto.ts:116-138 | for newline-free names, keys and values, splitting the manifest at newlines gives back exactly its `12 + n` lines |
| Manifest.Document | src/api/crypto.ts:111-139 | the manifest text; `Manifest.GenerateSealedSecretYaml` is proved to compute it, and `Manifest.DocumentShape` and `Manifest.DocumentSplits` state its lines |
| Hybrid.UnknownScopeIsStrict | src/api/crypto.ts:45-57 | every scope other than the two wide ones, including the default parameter value, gets the strict label `namespace/name` |
| Hybrid.LabelVectors | src/api/crypto.ts:45-57 | `default`/`my-secret` gives `default/my-secret` under strict, `default/` under namespace-wide and the empty label under cluster-wide |
| Hybrid.StrictLabelInjective | src/api/crypto.ts:53-56 | for namespaces without `/`, two strict labels are equal exactly when namespace and name are both equal |
| Hybrid.ScopesDiffer | src/api/crypto.ts:45-57 | the namespace-wide label is the strict label with the name cut off, equal to it only for an empty name, and the cluster-wide label differs from both |
| Hybrid.Label | src/api/crypto.ts:45-57 | the scope switch; stated by `Hybrid.UnknownScopeIsStrict`, `Hybrid.LabelVectors`, `Hybrid.StrictLabelInjective` and `Hybrid.ScopesDiffer` |
| Hybrid.SealBlobOutcome | src/api/crypto.ts:59-65 | a seal fails, with OAEP's length error, exactly when the modulus cannot carry the 32-byte session key |
| Hybrid.SealBlobParts | src/api/crypto.ts:35-86 | a successful seal's wrapped key is the RSA-OAEP encryption of the very session key GCM is keyed with, and is modulus-long; its nonce is the 12 bytes drawn after the 32-byte key. The label goes to GCM only as additional data and the plaintext is exactly the value's UTF-8 bytes. The ciphertext is as long as the plaintext, the tag is 16 bytes, and the blob is `k + 12 + n + 16` bytes |
| Hybrid.SealValueSucceeds | src/api/crypto.ts:59-65 | one value seals exactly when the modulus leaves OAEP room for the 32-byte session key, independent of the value |
| Hybrid.SplitBytes | src/api/crypto.ts:85-86 | cutting the wire bytes at `k`, `k + 12` and 16 bytes from the end gives back the wrapped key, nonce, ciphertext and tag |
| Hybrid.BytesSplit | src/api/crypto.ts:85-86 | every successful cut reassembles to the same wire bytes, with parts of the fixed sizes |
| Hybrid.BlobText | src/api/crypto.ts:85-88 | a well-formed blob's wire bytes split back into its four parts and number `k + 28 + n` for a `k`-byte wrapped key and `n`-byte ciphertext; its base-64 text decodes to those bytes, has their encoded length and holds no newline |
| Hybrid.SealValueWire | src/api/crypto.ts:85-88 | a sealed string is the base 64 of `k + 28 + n` wire bytes for an `n`-byte UTF-8 value; it decodes to them, and a reader knowing only the modulus length recovers all four parts |
| Hybrid.FourByteValue | src/api/crypto.ts:85-88 | under a 2048-bit key a four-byte value gives a 288-byte blob and 384 characters of text |
| Hybrid.PasswordExample | src/api/crypto.ts:85-88 | `p@ss` sealed for `default/my-secret`, strict, under a 2048-bit key is 256 + 12 + 4 + 16 = 288 bytes |
| Hybrid.SealBlob | src/api/crypto.ts:35-86 | `sealValue` up to the concatenated blob; stated by `Hybrid.SealBlobOutcome` and `Hybrid.SealBlobParts` |
| Hybrid.SealValue | src/api/crypto.ts:28-89 | `sealValue`: the blob in base 64; stated by `Hybrid.SealValueSucceeds`, `Hybrid.SealValueWire` and `Hybrid.FourByteValue` |
| Hybrid.SealData | src/api/crypto.ts:94-106 | the loop computes exactly the specified sealed record or failure |
| Hybrid.SealedDataShape | src/api/crypto.ts:101-105 | the sealed record has exactly the input's keys in order, and each entry is the seal of that key's own value |
| Hybrid.SealedDataSucceeds | src/api/crypto.ts:101-105 | sealing the record succeeds exactly when it is empty or the modulus is long enough |
| Hybrid.SealedDataError | src/api/crypto.ts:102-104 | a failed record seal reports OAEP's message-too-long error |
| Hybrid.SealedData | src/api/crypto.ts:94-106 | what `sealData` returns; stated by `Hybrid.SealedDataShape`, `Hybrid.SealedDataSucceeds`, `Hybrid.SealedDataError`, `Hybrid.EntryWindow` and `Hybrid.FreshKeyPerValue` |
| Hybrid.FreshKeyPerValue | src/api/crypto.ts:36-39 | the 76-byte stretches of the random stream that distinct entries read are disjoint; with `Hybrid.EntryWindow`, no two entries share a session key, nonce or seed draw |
| Hybrid.DrawsAgree | src/api/crypto.ts:36-39 | two random sources that agree on 76 bytes draw the same session key, nonce and OAEP seed |
| Hybrid.SealBlobDraws | src/api/crypto.ts:35-86 | a blob depends on the random source only through the session key, nonce and seed drawn from it |
| Hybrid.SealValueLocal | src/api/crypto.ts:28-89 | one `sealValue` reads exactly its 76 bytes of the stream: sources that agree there give the same sealed text |
| Hybrid.EntryWindow | src/api/crypto.ts:94-106 | entry `i` of the sealed map is fixed by the stream's bytes `76i .. 76i + 76` alone: any source that agrees there seals that entry's value to the same text |
| Direct.SealValueSpec | webseal2/src/api/crypto.ts:24-32 | a value seals exactly when it fits one OAEP block, failing with the length error otherwise. The text is the base 64 of one OAEP encryption of the value's raw bytes; it decodes to exactly `k` bytes, with no nonce, tag or label on the wire |
| Direct.LongestValue | webseal2/src/api/crypto.ts:25-30 | under a 2048-bit key values of at most 190 characters seal and longer ones fail |
| Direct.SealValue | webseal2/src/api/crypto.ts:24-32 | the direct `sealValue`; stated by `Direct.SealValueSpec` and `Direct.LongestValue` |
| Direct.SealData | webseal2/src/api/crypto.ts:37-46 | the loop computes exactly the specified sealed record or failure |
| Direct.SealedDataShape | webseal2/src/api/crypto.ts:41-45 | the sealed record has exactly the input's keys in order, and each entry is the seal of that key's value alone |
| Direct.SealedDataSucceeds | webseal2/src/api/crypto.ts:41-45 | sealing the record succeeds exactly when every value fits one OAEP block |
| Direct.SealedData | webseal2/src/api/crypto.ts:37-46 | what the direct `sealData` returns; stated by `Direct.SealedDataShape` and `Direct.SealedDataSucceeds` |
| SealApi.GuardOrder | src/api/seal.ts:10-18 | for whatever namespace and name reach `sealData` (so for the handler as written and the corrected one alike): an absent or empty key fails with the message "Public key is required" whatever else the request holds. Otherwise absent or key-less data fails with "Data is required". Only then is the key parsed, and a parse failure, with the message "Failed to parse public key: ", surfaces exactly when both guards pass |
| SealApi.Defaults | src/api/seal.ts:8 | an absent namespace becomes `default` and an absent name `my-secret`; a present one, even empty, is kept |
| SealApi.ComposeSpec | src/api/seal.ts:18-25 | for whatever namespace and name reach `sealData`, the returned record has exactly the request's keys in order, each the strict seal of that key's own value under the label built from them, and the manifest is rendered from that same record under the resolved namespace and name |
| SealApi.ResponseSpec | src/api/seal.ts:18-25 | the corrected handler: the same keys and manifest, with each value sealed under the strict label of the resolved namespace and name |
| SealApi.ResponseSpecAsWritten | src/api/seal.ts:18-25 | the handler as written: the same keys and manifest, with each value sealed under the label `undefined/undefined` |
| SealApi.Compose | src/api/seal.ts:10-25 | the guards, then parse, seal and render, with the namespace and name that reach `sealData` as parameters; stated by `SealApi.GuardOrder`, `SealApi.ComposeSucceeds` and `SealApi.ComposeSpec`, all for any such namespace and name |
| SealApi.SealSecretsAsWritten | src/api/seal.ts:7-26 | `sealSecrets` as written, with `undefined` for the missing arguments; stated by `SealApi.GuardOrder`, `SealApi.AsWrittenSucceeds`, `SealApi.ResponseSpecAsWritten`, `SealApi.AsWrittenIgnoresIdentity` and `SealApi.AsWrittenDefaultRequest` |
| SealApi.SealSecrets | src/api/seal.ts:7-26 | `sealSecrets` with the resolved namespace and name passed on; stated by `SealApi.GuardOrder`, `SealApi.ResponseSpec`, `SealApi.SealSecretsSucceeds` and `SealApi.CorrectedBindsIdentity` |
| SealApi.ComposeSucceeds | src/api/seal.ts:10-25 | for whatever namespace and name reach `sealData`, a request succeeds exactly when its key is present and parses, its data is non-empty, and the modulus can carry the session key |
| SealApi.SealSecretsSucceeds | src/api/seal.ts:10-25 | the corrected handler succeeds on exactly those requests |
| SealApi.AsWrittenSucceeds | src/api/seal.ts:10-25 | the handler as written succeeds on exactly those requests too: its wrong label causes no failure |
| SealApi.AsWrittenIgnoresIdentity | src/api/seal.ts:19 | as written, the sealed record does not depend on the request's namespace or name, and is sealed under the label `undefined/undefined` |
| SealApi.AsWrittenDefaultRequest | src/api/seal.ts:8-20 | as written, the default request renders a manifest for `default/my-secret` while its values are bound to `undefined/undefined`, a different label |
| SealApi.CorrectedBindsIdentity | src/api/seal.ts:19-20 | with namespace and name passed on, requests for different resources seal under different labels |
| WebSealHook.AddPairSpec | src/components/useWebSeal.ts:43-45 | adding keeps every existing row in place and order and appends exactly one empty row; a fresh id keeps ids distinct |
| WebSealHook.WithoutIdMembers | src/components/useWebSeal.ts:48 | the filter keeps exactly the rows with another id |
| WebSealHook.WithoutIdAppend | src/components/useWebSeal.ts:48 | the filter keeps order: filtering a concatenation concatenates the filtered parts |
| WebSealHook.WithoutIdAbsent | src/components/useWebSeal.ts:48 | removing an id no row carries changes nothing |
| WebSealHook.WithoutIdDistinct | src/components/useWebSeal.ts:48 | with distinct ids the filter drops at most one row and keeps the ids distinct |
| WebSealHook.RemovePairSpec | src/components/useWebSeal.ts:47-49 | a one-row list is left unchanged; otherwise exactly the rows with that id go, in order; with distinct ids the list never becomes empty |
| WebSealHook.UpdatePairSpec | src/components/useWebSeal.ts:51-53 | updating keeps length and ids, leaves rows with other ids unchanged, and changes only the named field of matching rows |
| WebSealHook.AddPair | src/components/useWebSeal.ts:43-45 | the add reducer; stated by `WebSealHook.AddPairSpec` |
| WebSealHook.RemovePair | src/components/useWebSeal.ts:47-49 | the remove reducer; stated by `WebSealHook.RemovePairSpec` and the `WebSealHook.WithoutId…` lemmas |
| WebSealHook.UpdatePair | src/components/useWebSeal.ts:51-53 | the update reducer; stated by `WebSealHook.UpdatePairSpec` |
| WebSealHook.CollectData | src/components/useWebSeal.ts:61-66 | the `forEach` loop computes exactly the specified collected record |
| WebSealHook.LastWith | src/components/useWebSeal.ts:62-65 | finds the last row with a given trimmed key, or reports that no row has it |
| WebSealHook.CollectedGet | src/components/useWebSeal.ts:61-66 | a blank key is never collected; a non-blank trimmed key holds the untrimmed value of the last row with that trimmed key, so later duplicates overwrite earlier ones |
| WebSealHook.CollectedKeys | src/components/useWebSeal.ts:61-66 | the collected keys are exactly the non-blank trimmed keys of the rows |
| WebSealHook.CollectedEmpty | src/components/useWebSeal.ts:68-72 | nothing is collected exactly when every row's key is blank |
| WebSealHook.Collected | src/components/useWebSeal.ts:61-66 | the record the `forEach` builds; stated by `WebSealHook.CollectData`, `WebSealHook.CollectedGet`, `WebSealHook.CollectedKeys` and `WebSealHook.CollectedEmpty` |
| WebSealHook.SubmitRequestSpec | src/components/useWebSeal.ts:68-84 | a request is posted exactly when some key is non-blank. Its keys are never empty, so the server's data guard never rejects it, in the handler as written or the corrected one. The form always sends namespace and name, so the server's defaults never apply |
| WebSealHook.SubmitRequest | src/components/useWebSeal.ts:61-84 | the request `handleSubmit` posts, if any; stated by `WebSealHook.SubmitRequestSpec` |
| WebSealHook.ReplyErrorSpec | src/components/useWebSeal.ts:86-94 | only a successful reply sets no error; a failed response shows its error field or, when that is absent or empty, the fixed fallback `Seal 요청 실패`; an `Error` throw shows its own message and any other throw the unknown-error message |
| WebSealHook.ReplyError | src/components/useWebSeal.ts:86-94 | the message the `catch` sets; stated by `WebSealHook.ReplyErrorSpec` |
| WebSealHook.WebSeal.constructor | src/components/useWebSeal.ts:32-41 | the initial state: empty key, one empty row, namespace `default`, name `my-secret`, no result, no error, not loading, not copied |
| WebSealHook.WebSeal.SetPublicKey | src/components/useWebSeal.ts:32 | the setter stores the new key |
| WebSealHook.WebSeal.SetNamespace | src/components/useWebSeal.ts:36 | the setter stores the new namespace |
| WebSealHook.WebSeal.SetSecretName | src/components/useWebSeal.ts:37 | the setter stores the new name |
| WebSealHook.WebSeal.AddKeyValue | src/components/useWebSeal.ts:43-45 | the rows become the add reducer's result and the editor stays valid: at least one row, distinct ids |
| WebSealHook.WebSeal.RemoveKeyValue | src/components/useWebSeal.ts:47-49 | the rows become the remove reducer's result and the editor stays valid |
| WebSealHook.WebSeal.UpdateKeyValue | src/components/useWebSeal.ts:51-53 | the rows become the update reducer's result and the editor stays valid |
| WebSealHook.WebSeal.Submit | src/components/useWebSeal.ts:55-84 | error and result are cleared; with nothing collected the guard's message is set, loading is off and nothing is posted; otherwise the form's request is returned with loading on |
| WebSealHook.WebSeal.Complete | src/components/useWebSeal.ts:86-97 | a successful reply becomes the result; any failure becomes the error message; loading always ends |
| WebSealHook.WebSeal.CopyToClipboard | src/components/useWebSeal.ts:100-106 | `copied` is set only when there is a result with a non-empty manifest |
| WebSealHook.WebSeal.CopiedTimeout | src/components/useWebSeal.ts:104 | the timer clears `copied` |
| WebSealHook.WebSeal.Reset | src/components/useWebSeal.ts:108-116 | restores the initial form with a new row id and clears result, error and copied, but leaves `loading` as it was |

## Left out

- RSA-OAEP, AES-GCM, PEM and X.509 parsing are foreign library calls. They are abstract functions constrained only by `Forge.Sound`.
- There is no decryption path in the code. Round-trip decryption, tamper detection and the label's authentication at the controller are therefore out of reach.
- The quality of the randomness is not modelled. The random source is an input stream, so two seals' freshness is stated only as disjoint stretches of that stream that each seal alone reads (`Hybrid.FreshKeyPerValue`, `Hybrid.EntryWindow`).
- JavaScript enumerates integer-like record keys (such as `"1"`) before the others. The model keeps plain insertion order.
- Assigning a record key named `__proto__` does not create an entry in JavaScript. The model treats it as an ordinary key.
- Strings are sequences of characters. UTF-16 surrogate pairs and lone surrogates are not modelled.
- Bytes.RawBytes: forge's behaviour for characters above U+00FF is not modelled. The contract states one byte per character everywhere, and the byte's value only for characters up to U+00FF; nothing is stated about the byte above it.
- The `Failed to parse public key: ${e}` message carries the library's error text, which is not modelled. The error is `ParseFailed`.
- `fetch`, JSON encoding and decoding, `navigator.clipboard`, `setTimeout` and React's state scheduling are I/O, timing or framework concerns. `handleSubmit` is split at the `await`: `Submit` returns the request to post and `Complete` takes the reply as a value. The clipboard write is taken to succeed.
- `crypto.randomUUID()` is a parameter. `WebSealHook.WebSeal.AddKeyValue` requires the new id to be fresh, standing in for a random UUID's uniqueness.
- The `apiEndpoint` configuration and the rendering components are left out: they contain no logic.

## Findings

| source | as written | input that shows it | evidently intended | confidence | as-written member | corrected member |
|---|---|---|---|---|---|---|
| src/api/seal.ts:19 | `sealData(publicKey, data)` passes two arguments, but the `sealData` it imports (src/api/crypto.ts:94-100) needs `namespace` and `name`. TypeScript rejects this call; emitted anyway, both parameters are `undefined`. | the request `{publicKey: key, data: {"password": "p@ss"}}` with no namespace and no name: the manifest names `default/my-secret`, but every value is sealed with the label `undefined/undefined` | `sealData(publicKey, data, namespace, name)`, so that values are bound to the resource the manifest describes | not executed; the arity mismatch is certain, the run-time label follows from JavaScript's template literals | SealApi.AsWrittenDefaultRequest | SealApi.CorrectedBindsIdentity |
