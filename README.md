# Secret bootstrap of the serverless PR agent, in Dafny

This project models `load_secrets` from `pr_agent/servers/serverless.py`. It
runs once when the serverless entry point is loaded. It reads the secret's
identifier from `SECRETS_NAME` in the process environment, fetches that secret
from AWS Secrets Manager, and parses its `SecretString` as JSON. It then checks
that every field named in `SECRET_ENV_MAPPING` is present, base64- and
UTF-8-decodes `github_private_key`, and writes each value into `os.environ`
under its `DYNACONF_*` name, in mapping order. Finally it returns those four
names read back from the environment. Every failure surfaces as a
`SecretLoadError`.

Modules:

- `Wrappers` (`wrappers.dfy`) and `Bytes` (`bytes.dfy`): `Option`, `Result` and the octet type.
- `Utf8` (`utf8.dfy`): strict UTF-8 encoding and decoding, as done by Python's
  `bytes.decode('utf-8')`. It is proved that `Decode(b) == Some(s)` holds exactly when
  `Encode(s) == b`.
- `Base64` (`base64.dfy`): the RFC 4648 section 4 encoder. The decoder is what
  `base64.b64decode(str)` does with `validate=False`. The text must be ASCII.
  Then comes the non-strict `binascii.a2b_base64` state machine. It skips characters
  outside the alphabet, stops at a full pad, and rejects a dangling data
  character or a missing pad.
- `Serverless` (`serverless.dfy`): the mapping table, the error kinds, the
  pure specification `Bootstrap` of one run, and the class `ProcessEnvironment`.
  The class holds the environment as a `map<string, string>` field. Its method
  `LoadSecrets` runs the publication loop in place. The method is proved
  equal to `Bootstrap` and to leave every unmapped entry alone.
- `BootstrapProperties` (`bootstrap_properties.dfy`): the properties of
  `Bootstrap`.

The secret store is the parameter `store: string -> StoreReply`. JSON parsing is
the parameter `parse: string -> Option<Bundle>`.

Publication is not all-or-nothing. The entries are written in mapping order,
and `github_private_key` comes last. So a key that fails to decode leaves the
three earlier entries written; see `PrivateKeyDecodeFailureKeepsEarlierWrites`.

## Model

| member | source | states |
|---|---|---|
| `Serverless.ProcessEnvironment.LoadSecrets` | pr_agent/servers/serverless.py:33-74 | The result and the new environment are exactly `Bootstrap(old(env), store, parse)`. No entry outside the four mapped names changes. |
| `Serverless.ProcessEnvironment.Put` | pr_agent/servers/serverless.py:67 | A value without NUL is stored under its name and nothing else changes. A value with NUL is refused and the environment is unchanged. |
| `Serverless.Bootstrap` | pr_agent/servers/serverless.py:33-74 | The pure model of one run. It has no `ensures` of its own. `LoadSecrets` is proved equal to it. Its behaviour is stated by `IdentifierCheckedFirst`, `StoreOrParseFailureFails`, `EmptySecretStringFails`, `IncompleteBundleFails`, `BootstrapSucceeds`, `BootstrapFailsAt` and `BootstrapFrame`. |
| `Serverless.PublishEntry` | pr_agent/servers/serverless.py:59-67 | One loop iteration; no `ensures` of its own. `PublishPrefixWrites`, `PublishPrefixFrame` and `PublishStopsAt` state what it writes and when it raises. |
| `Serverless.PublishPrefix` | pr_agent/servers/serverless.py:59-67 | The first n iterations of the loop; no `ensures` of its own. `PublishPrefixHalts`, `PublishPrefixWrites`, `PublishPrefixFrame` and `PublishStopsAt` state it. |
| `Serverless.FieldValue` | pr_agent/servers/serverless.py:60-66 | The value a field is published with; no `ensures` of its own. `BootstrapSucceeds` states that only `github_private_key` is decoded and every other field is published as is. |
| `Serverless.DecodePrivateKey` | pr_agent/servers/serverless.py:62-66 | `b64decode(value).decode('utf-8')`, with either failure as one error; no `ensures` of its own. `PrivateKeyRoundTrip` and `PrivateKeyDecodeFailureKeepsEarlierWrites` state it. |
| `Serverless.ReadBack` | pr_agent/servers/serverless.py:69 | The dictionary returned on success; no `ensures` of its own. `BootstrapPublishesAll` and `BootstrapSucceeds` state that its keys are exactly the four names, with the published values. |
| `Serverless.Writable` | pr_agent/servers/serverless.py:67 | Whether `os.environ` accepts a value; no `ensures` of its own. `Put` states that a value is stored exactly when it holds. |
| `Serverless.MissingKeys` | pr_agent/servers/serverless.py:48-51 | A key is reported iff it is a mapping key absent from the bundle. The report lists them in mapping order (a subsequence of the keys). |
| `Serverless.PublishPrefixHalts` | pr_agent/servers/serverless.py:59-67 | Once an iteration raises, later iterations neither write nor change the error. |
| `BootstrapProperties.MappingDistinct` | pr_agent/servers/serverless.py:12-17 | The four mapping keys are distinct, and so are the four environment names. |
| `BootstrapProperties.IdentifierCheckedFirst` | pr_agent/servers/serverless.py:34-36 | With `SECRETS_NAME` unset or empty, the run fails with MissingIdentifier and the environment is unchanged. The outcome is the same whatever the store and parser would answer. |
| `BootstrapProperties.StoreOrParseFailureFails` | pr_agent/servers/serverless.py:38-47 | A store error, or a SecretString that does not parse, fails the run before the completeness check. The environment is unchanged. |
| `BootstrapProperties.EmptySecretStringFails` | pr_agent/servers/serverless.py:43-45 | A missing or empty SecretString fails the run with the secret's name. The environment is unchanged. |
| `BootstrapProperties.MissingKeysEmpty` | pr_agent/servers/serverless.py:48-53 | The completeness check passes iff every mapping key is in the bundle. |
| `BootstrapProperties.IncompleteBundleFails` | pr_agent/servers/serverless.py:48-56 | An incomplete bundle fails the run before any write. The reported list is non-empty and holds exactly the absent keys, in mapping order. |
| `BootstrapProperties.PublishPrefixWrites` | pr_agent/servers/serverless.py:59-67 | If the first n iterations succeed, the loop has not failed. Each of their names then holds its iteration's value. |
| `BootstrapProperties.PublishPrefixFrame` | pr_agent/servers/serverless.py:59-67 | The first n iterations change no entry except their own names. |
| `BootstrapProperties.PublishStopsAt` | pr_agent/servers/serverless.py:59-67 | The loop ends at its first failing iteration. It carries that iteration's error and the environment the earlier iterations left. |
| `BootstrapProperties.BootstrapPublishesAll` | pr_agent/servers/serverless.py:59-69 | When every entry decodes and is accepted, the run succeeds. The result maps each of the four names to its entry's value. The new environment is the old one with those four entries overwritten. |
| `BootstrapProperties.BootstrapFailsAt` | pr_agent/servers/serverless.py:59-67 | The first failing entry decides the run's error. The environment is left as the entries before it wrote it. |
| `BootstrapProperties.BootstrapSucceeds` | pr_agent/servers/serverless.py:59-69 | The run succeeds iff the bundle is complete and every entry decodes and is writable. On success the result's keys are exactly the four names. Every field except the private key is published as is, and the private key is base64/UTF-8 decoded. The new environment is the old one overridden by the result. |
| `BootstrapProperties.BootstrapFrame` | pr_agent/servers/serverless.py:59-67 | For every store, parser and secret, no environment entry outside the four mapped names changes. |
| `BootstrapProperties.PrivateKeyDecodeFailureKeepsEarlierWrites` | pr_agent/servers/serverless.py:59-67 | When the private key does not decode, the run fails with PrivateKeyDecodeFailure. The three earlier entries are written by then. `DYNACONF_GITHUB__PRIVATE_KEY` keeps its old state. |
| `BootstrapProperties.PrivateKeyRoundTrip` | pr_agent/servers/serverless.py:62-66 | The private-key decode of base64(UTF-8(text)) is text, for every text. |
| `BootstrapProperties.PublishesPlaintextKey` | pr_agent/servers/serverless.py:59-69 | Publishing base64(UTF-8(text)) as `github_private_key` succeeds when the values are writable. It yields text under `DYNACONF_GITHUB__PRIVATE_KEY`, in both the result and the environment. |
| `Base64.Encode` | pr_agent/servers/serverless.py:64 | The RFC 4648 encoding has 4·⌈n/3⌉ characters, each in the alphabet or `=`. |
| `Base64.Symbol` | pr_agent/servers/serverless.py:64 | The alphabet character for a six-bit value decodes back to that value. |
| `Base64.DecodeEncode` | pr_agent/servers/serverless.py:64 | The decoder returns every encoded octet string unchanged. |
| `Base64.DecodeEncodeThen` | pr_agent/servers/serverless.py:64 | A padded encoding ends the decode, so text after the pad is ignored. An unpadded one lets decoding continue into what follows. |
| `Base64.DecodeIgnoresSkipped` | pr_agent/servers/serverless.py:64 | For ASCII text, removing the characters outside the alphabet (line breaks, spaces) does not change the decode. |
| `Base64.Decode` | pr_agent/servers/serverless.py:64 | The `b64decode` of a `str`: the ASCII check, then the decoder. It has no `ensures` of its own. `DecodeEncode`, `DecodeEncodeThen` and `DecodeIgnoresSkipped` state it. |
| `Base64.A2b` | pr_agent/servers/serverless.py:64 | The non-strict decoder's state machine; no `ensures` of its own. `DecodeEncodeThen`, through `DecodeGroup`, `DecodeFinalOne` and `DecodeFinalTwo`, and `DecodeIgnoresSkipped`, through `A2bStrip`, state it. |
| `Utf8.Decode` | pr_agent/servers/serverless.py:64 | Strict `.decode('utf-8')`; no `ensures` of its own. `DecodeEncode`, `EncodeDecode` and `DecodeIffEncode` state that it succeeds exactly on encodings and inverts `Encode`. |
| `Utf8.DecodeEncode` | pr_agent/servers/serverless.py:64 | Decoding the UTF-8 encoding of any text gives that text. |
| `Utf8.EncodeDecode` | pr_agent/servers/serverless.py:64 | Octets decode only when they are the encoding of the decoded text. |
| `Utf8.DecodeIffEncode` | pr_agent/servers/serverless.py:64 | `Decode(b) == Some(s)` iff `Encode(s) == b`. |

## Left out

- The boto3 session, the client and the `get_secret_value` network call
  (lines 38-43) are the parameter `store`. Any exception they raise is the
  single reply `StoreError`.
- `json.loads` (line 47) is the parameter `parse`, which yields a map from
  strings to strings or fails. A JSON document that is not an object, and
  non-string values passed through `str()`, are not modelled. A Dafny
  `string` cannot hold a lone surrogate, so JSON values with escapes such as
  `\ud800` are outside the model.
- The module-level call with `print` and re-raise (lines 76-81) is a
  startup side effect.
- The FastAPI application, its middleware, the router import, the Mangum
  handler and `serverless` (lines 83-95) are HTTP and runtime plumbing.
- Exception messages are not modelled. Each error keeps only its kind and the
  secret name, the missing keys or the refused environment name.
- `base64.b64decode` and `binascii.a2b_base64` are library code outside
  `serverless.py`. `Base64.Decode` follows CPython's `a2b_base64` in
  `Modules/binascii.c` with strict mode off. That implementation stops at the
  first full pad and ignores the rest. It ignores `=` until two data characters
  of a quantum have been read. It gives a dangling single data character its
  own error. The Python documentation states none of these three.
- `Serverless.Writable` models only the NUL refusal. On POSIX, `os.environ`
  encodes values with the `surrogateescape` handler. That handler accepts
  U+DC80 to U+DCFF and refuses the other lone surrogates. A Dafny `char` cannot
  hold a lone surrogate, so neither case arises in the model.
- `Serverless.ReadBack` returns a `map`, which has no order. The dictionary
  built at line 69 is in mapping order. The caller at line 78 discards it.
