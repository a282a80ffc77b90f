/** The secret bootstrap of the serverless entry point: read the secret's
    identifier from the process environment, fetch the secret, check that
    every required field is present, base64/UTF-8 decode the GitHub private
    key, and publish each value into the process environment under its
    configuration name, one entry at a time.

    Publication is not all-or-nothing: the entries are written in mapping
    order, so a private key that fails to decode (it is the last entry)
    leaves the three earlier entries written. */
module Serverless {
  import opened Wrappers
  import Base64
  import Utf8

  type Env = map<string, string>
  type Bundle = map<string, string>

  /** One row of the mapping table: a field of the secret and the
      environment variable it is published under. */
  datatype Entry = Entry(key: string, name: string)

  /** SECRET_ENV_MAPPING, in its insertion order. */
  const SecretEnvMapping: seq<Entry> := [
    Entry("openai_key", "DYNACONF_OPENAI__KEY"),
    Entry("github_app_id", "DYNACONF_GITHUB__APP_ID"),
    Entry("github_webhook_secret", "DYNACONF_GITHUB__WEBHOOK_SECRET"),
    Entry("github_private_key", "DYNACONF_GITHUB__PRIVATE_KEY")
  ]

  const SecretsNameVar: string := "SECRETS_NAME"
  const PrivateKeyField: string := "github_private_key"
  const PrivateKeyName: string := "DYNACONF_GITHUB__PRIVATE_KEY"

  /** The mapping's keys, in order. */
  const SecretKeys: seq<string> :=
    seq(|SecretEnvMapping|, i requires 0 <= i < |SecretEnvMapping| => SecretEnvMapping[i].key)

  /** The mapping's values: the only environment variables the bootstrap writes. */
  const MappedNames: set<string> := set e | e in SecretEnvMapping :: e.name

  /** What the secret store answers for an identifier: an error raised by
      the client (no credentials, unknown secret, network), or a response
      that may or may not carry a SecretString. */
  datatype StoreReply = StoreError | Reply(secretString: Option<string>)

  /** Every failure surfaces as one SecretLoadError; the variant records
      which check raised it. */
  datatype SecretLoadError =
    | MissingIdentifier                 // SECRETS_NAME unset or empty
    | StoreFailure(secretName: string)  // the client raised; re-wrapped
    | NoSecretString(secretName: string)
    | MalformedPayload                  // json.loads raised; re-wrapped
    | MissingSecrets(keys: seq<string>)
    | PrivateKeyDecodeFailure           // b64decode or .decode('utf-8') raised
    | EnvWriteFailure(name: string)     // os.environ refused the value; re-wrapped

  predicate HasIdentifier(env: Env) {
    SecretsNameVar in env && env[SecretsNameVar] != ""
  }

  /** Every required key of the mapping is in the bundle. */
  predicate Complete(bundle: Bundle) {
    forall i :: 0 <= i < |SecretEnvMapping| ==> SecretEnvMapping[i].key in bundle
  }

  /** `xs` lists some of the elements of `ys`, in the order they occur there. */
  predicate IsSubsequence(xs: seq<string>, ys: seq<string>)
    decreases |ys|
  {
    if xs == [] then true
    else if ys == [] then false
    else (xs[0] == ys[0] && IsSubsequence(xs[1..], ys[1..])) || IsSubsequence(xs, ys[1..])
  }

  /** The keys of `keys` that the bundle lacks, in the order of `keys`. */
  function MissingKeys(keys: seq<string>, bundle: Bundle): (r: seq<string>)
    ensures forall k :: k in r <==> k in keys && k !in bundle
    ensures IsSubsequence(r, keys)
  {
    if keys == [] then []
    else
      var rest := MissingKeys(keys[1..], bundle);
      if keys[0] in bundle then rest else [keys[0]] + rest
  }

  /** base64.b64decode(value).decode('utf-8'); any exception either step
      raises becomes one decode failure. */
  function DecodePrivateKey(raw: string): Result<string, SecretLoadError> {
    match Base64.Decode(raw)
    case Failure(_) => Failure(PrivateKeyDecodeFailure)
    case Success(octets) =>
      match Utf8.Decode(octets)
      case None => Failure(PrivateKeyDecodeFailure)
      case Some(text) => Success(text)
  }

  /** The value published for a field: decoded for the private key, the raw
      string for every other field. */
  function FieldValue(key: string, raw: string): Result<string, SecretLoadError> {
    if key == PrivateKeyField then DecodePrivateKey(raw) else Success(raw)
  }

  /** os.environ accepts a value only when it has no NUL character. */
  predicate Writable(value: string) {
    '\0' !in value
  }

  /** The environment after some loop iterations, and the error that stopped
      the loop, if any. */
  datatype Progress = Progress(env: Env, failure: Option<SecretLoadError>)

  /** One iteration of the publication loop. */
  function PublishEntry(env: Env, bundle: Bundle, e: Entry): Progress
    requires e.key in bundle
  {
    match FieldValue(e.key, bundle[e.key])
    case Failure(err) => Progress(env, Some(err))
    case Success(v) =>
      if Writable(v) then Progress(env[e.name := v], None)
      else Progress(env, Some(EnvWriteFailure(e.name)))
  }

  /** The first `n` iterations of the publication loop, stopping at the
      first failure. */
  function PublishPrefix(env0: Env, bundle: Bundle, n: nat): Progress
    requires n <= |SecretEnvMapping| && Complete(bundle)
  {
    if n == 0 then Progress(env0, None)
    else
      var p := PublishPrefix(env0, bundle, n - 1);
      if p.failure.Some? then p else PublishEntry(p.env, bundle, SecretEnvMapping[n - 1])
  }

  /** Once an iteration fails, the loop has stopped: later iterations
      neither write nor replace the error. */
  lemma {:induction false} PublishPrefixHalts(env0: Env, bundle: Bundle, n: nat, m: nat)
    requires n <= m <= |SecretEnvMapping| && Complete(bundle)
    requires PublishPrefix(env0, bundle, n).failure.Some?
    ensures PublishPrefix(env0, bundle, m) == PublishPrefix(env0, bundle, n)
    decreases m
  {
    if m > n {
      PublishPrefixHalts(env0, bundle, n, m - 1);
    }
  }

  /** The dictionary returned on success: each mapped name read back from
      the environment. */
  function ReadBack(env: Env): map<string, string> {
    map x | x in MappedNames && x in env :: env[x]
  }

  /** The result of the bootstrap and the environment it leaves behind. */
  datatype Outcome = Outcome(result: Result<map<string, string>, SecretLoadError>, env: Env)

  /** load_secrets as a function of the environment, the secret store and
      the JSON parser, in the order the checks run. */
  function Bootstrap(env: Env, store: string -> StoreReply, parse: string -> Option<Bundle>): Outcome {
    if !HasIdentifier(env) then Outcome(Failure(MissingIdentifier), env)
    else
      var name := env[SecretsNameVar];
      match store(name)
      case StoreError => Outcome(Failure(StoreFailure(name)), env)
      case Reply(ss) =>
        if ss.None? || ss.value == "" then Outcome(Failure(NoSecretString(name)), env)
        else match parse(ss.value)
          case None => Outcome(Failure(MalformedPayload), env)
          case Some(bundle) =>
            var missing := MissingKeys(SecretKeys, bundle);
            if missing != [] then Outcome(Failure(MissingSecrets(missing)), env)
            else
              assert Complete(bundle) by {
                forall i | 0 <= i < |SecretEnvMapping| ensures SecretEnvMapping[i].key in bundle {
                  assert SecretKeys[i] in SecretKeys;
                }
              }
              var p := PublishPrefix(env, bundle, |SecretEnvMapping|);
              match p.failure
              case Some(err) => Outcome(Failure(err), p.env)
              case None => Outcome(Success(ReadBack(p.env)), p.env)
  }

  /** Entry `x` is the same in both environments: absent from both, or
      present in both with one value. */
  predicate Agrees(a: Env, b: Env, x: string) {
    (x in a <==> x in b) && (x in a ==> a[x] == b[x])
  }

  /** The process environment that load_secrets reads and writes. */
  class ProcessEnvironment {
    var env: Env

    constructor (initial: Env)
      ensures env == initial
    {
      env := initial;
    }

    /** os.environ[name] = value, which raises for a value holding NUL. */
    method Put(name: string, value: string) returns (ok: bool)
      modifies this
      ensures ok == Writable(value)
      ensures env == if ok then old(env)[name := value] else old(env)
    {
      ok := Writable(value);
      if ok {
        env := env[name := value];
      }
    }

    method LoadSecrets(store: string -> StoreReply, parse: string -> Option<Bundle>)
      returns (r: Result<map<string, string>, SecretLoadError>)
      modifies this
      ensures Outcome(r, env) == Bootstrap(old(env), store, parse)
      ensures forall x :: x !in MappedNames ==> Agrees(old(env), env, x)
    {
      if SecretsNameVar !in env || env[SecretsNameVar] == "" {
        return Failure(MissingIdentifier);
      }
      var secretName := env[SecretsNameVar];
      var response := store(secretName);
      if response.StoreError? {
        return Failure(StoreFailure(secretName));
      }
      if response.secretString.None? || response.secretString.value == "" {
        return Failure(NoSecretString(secretName));
      }
      var parsed := parse(response.secretString.value);
      if parsed.None? {
        return Failure(MalformedPayload);
      }
      var secrets := parsed.value;
      var missing := MissingKeys(SecretKeys, secrets);
      if missing != [] {
        return Failure(MissingSecrets(missing));
      }
      assert Complete(secrets) by {
        forall i | 0 <= i < |SecretEnvMapping| ensures SecretEnvMapping[i].key in secrets {
          assert SecretKeys[i] in SecretKeys;
        }
      }
      var i := 0;
      while i < |SecretEnvMapping|
        invariant 0 <= i <= |SecretEnvMapping|
        invariant PublishPrefix(old(env), secrets, i) == Progress(env, None)
        invariant forall x :: x !in MappedNames ==> Agrees(old(env), env, x)
      {
        var entry := SecretEnvMapping[i];
        var value := secrets[entry.key];
        if entry.key == PrivateKeyField {
          var decoded := DecodePrivateKey(value);
          if decoded.Failure? {
            PublishPrefixHalts(old(env), secrets, i + 1, |SecretEnvMapping|);
            return Failure(decoded.error);
          }
          value := decoded.value;
        }
        var ok := Put(entry.name, value);
        if !ok {
          PublishPrefixHalts(old(env), secrets, i + 1, |SecretEnvMapping|);
          return Failure(EnvWriteFailure(entry.name));
        }
        i := i + 1;
      }
      r := Success(ReadBack(env));
    }
  }
}
