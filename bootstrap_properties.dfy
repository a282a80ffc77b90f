/** What load_secrets guarantees, stated about its specification
    Serverless.Bootstrap (which ProcessEnvironment.LoadSecrets is proved to
    implement): the order of the checks, the frame of the environment
    update, the exact published values, partial publication when the
    private key fails to decode, and the private-key round trip. */
module BootstrapProperties {
  import opened Wrappers
  import opened Serverless
  import Base64
  import Utf8

  /** The value iteration `i` of the publication loop would write. */
  function EntryValue(bundle: Bundle, i: nat): Result<string, SecretLoadError>
    requires Complete(bundle) && i < |SecretEnvMapping|
  {
    FieldValue(SecretEnvMapping[i].key, bundle[SecretEnvMapping[i].key])
  }

  /** Iteration `i` decodes its value and os.environ accepts it. */
  predicate EntryOk(bundle: Bundle, i: nat)
    requires Complete(bundle) && i < |SecretEnvMapping|
  {
    EntryValue(bundle, i).Success? && Writable(EntryValue(bundle, i).value)
  }

  /** The error iteration `i` raises when it is not EntryOk. */
  function EntryError(bundle: Bundle, i: nat): SecretLoadError
    requires Complete(bundle) && i < |SecretEnvMapping|
  {
    if EntryValue(bundle, i).Failure? then EntryValue(bundle, i).error
    else EnvWriteFailure(SecretEnvMapping[i].name)
  }

  /** The names the first `n` iterations may write. */
  function PrefixNames(n: nat): set<string> {
    set i | 0 <= i < n && i < |SecretEnvMapping| :: SecretEnvMapping[i].name
  }

  /** The secret is identified, fetched, non-empty and parses to `bundle`. */
  predicate Retrieves(env: Env, store: string -> StoreReply, parse: string -> Option<Bundle>, bundle: Bundle) {
    && HasIdentifier(env)
    && store(env[SecretsNameVar]).Reply?
    && store(env[SecretsNameVar]).secretString.Some?
    && store(env[SecretsNameVar]).secretString.value != ""
    && parse(store(env[SecretsNameVar]).secretString.value) == Some(bundle)
  }

  /** The mapping's keys are distinct and so are its names. */
  lemma MappingDistinct()
    ensures forall i, j :: 0 <= i < j < |SecretEnvMapping| ==>
      SecretEnvMapping[i].key != SecretEnvMapping[j].key && SecretEnvMapping[i].name != SecretEnvMapping[j].name
  {
  }

  /** When the first `n` iterations all succeed, the loop has not failed and
      each of their names holds the value its iteration wrote. */
  lemma {:induction false} PublishPrefixWrites(env0: Env, bundle: Bundle, n: nat)
    requires n <= |SecretEnvMapping| && Complete(bundle)
    requires forall i :: 0 <= i < n ==> EntryOk(bundle, i)
    ensures PublishPrefix(env0, bundle, n).failure.None?
    ensures forall i :: 0 <= i < n ==>
      SecretEnvMapping[i].name in PublishPrefix(env0, bundle, n).env &&
      PublishPrefix(env0, bundle, n).env[SecretEnvMapping[i].name] == EntryValue(bundle, i).value
  {
    if n > 0 {
      PublishPrefixWrites(env0, bundle, n - 1);
      MappingDistinct();
      var e := SecretEnvMapping[n - 1];
      assert EntryOk(bundle, n - 1);
      var p := PublishPrefix(env0, bundle, n - 1);
      assert PublishPrefix(env0, bundle, n) == Progress(p.env[e.name := EntryValue(bundle, n - 1).value], None);
    }
  }

  /** The first `n` iterations touch no entry but their own names. */
  lemma {:induction false} PublishPrefixFrame(env0: Env, bundle: Bundle, n: nat)
    requires n <= |SecretEnvMapping| && Complete(bundle)
    ensures forall x :: x !in PrefixNames(n) ==> Agrees(env0, PublishPrefix(env0, bundle, n).env, x)
  {
    if n > 0 {
      PublishPrefixFrame(env0, bundle, n - 1);
      assert PrefixNames(n - 1) <= PrefixNames(n);
      assert SecretEnvMapping[n - 1].name in PrefixNames(n);
    }
  }

  /** The loop stops at its first failing iteration `j`, with that
      iteration's error and the environment the iterations before it left. */
  lemma PublishStopsAt(env0: Env, bundle: Bundle, j: nat)
    requires j < |SecretEnvMapping| && Complete(bundle)
    requires forall i :: 0 <= i < j ==> EntryOk(bundle, i)
    requires !EntryOk(bundle, j)
    ensures PublishPrefix(env0, bundle, |SecretEnvMapping|) ==
      Progress(PublishPrefix(env0, bundle, j).env, Some(EntryError(bundle, j)))
  {
    PublishPrefixWrites(env0, bundle, j);
    PublishPrefixHalts(env0, bundle, j + 1, |SecretEnvMapping|);
  }

  /** The completeness check passes exactly for complete bundles. */
  lemma MissingKeysEmpty(bundle: Bundle)
    ensures MissingKeys(SecretKeys, bundle) == [] <==> Complete(bundle)
  {
    var r := MissingKeys(SecretKeys, bundle);
    if !Complete(bundle) {
      var i :| 0 <= i < |SecretEnvMapping| && SecretEnvMapping[i].key !in bundle;
      assert SecretKeys[i] in r;
    }
    if r != [] {
      assert r[0] in SecretKeys && r[0] !in bundle;
      var i :| 0 <= i < |SecretKeys| && SecretKeys[i] == r[0];
    }
  }

  /** Without SECRETS_NAME (or with it empty) the bootstrap fails at once,
      whatever the store and the parser would have answered, and the
      environment is unchanged. */
  lemma IdentifierCheckedFirst(env: Env, store: string -> StoreReply, parse: string -> Option<Bundle>,
                               otherStore: string -> StoreReply, otherParse: string -> Option<Bundle>)
    requires !HasIdentifier(env)
    ensures Bootstrap(env, store, parse) == Outcome(Failure(MissingIdentifier), env)
    ensures Bootstrap(env, store, parse) == Bootstrap(env, otherStore, otherParse)
  {
  }

  /** A response without a SecretString, or with an empty one, fails the
      bootstrap before parsing, and the environment is unchanged. */
  lemma EmptySecretStringFails(env: Env, store: string -> StoreReply, parse: string -> Option<Bundle>)
    requires HasIdentifier(env) && store(env[SecretsNameVar]).Reply?
    requires store(env[SecretsNameVar]).secretString.None? || store(env[SecretsNameVar]).secretString.value == ""
    ensures Bootstrap(env, store, parse) == Outcome(Failure(NoSecretString(env[SecretsNameVar])), env)
  {
  }

  /** A store call that raises, or a SecretString that does not parse,
      fails the bootstrap before the completeness check, and the
      environment is unchanged. */
  lemma StoreOrParseFailureFails(env: Env, store: string -> StoreReply, parse: string -> Option<Bundle>)
    requires HasIdentifier(env)
    ensures store(env[SecretsNameVar]).StoreError? ==>
      Bootstrap(env, store, parse) == Outcome(Failure(StoreFailure(env[SecretsNameVar])), env)
    ensures var reply := store(env[SecretsNameVar]);
      reply.Reply? && reply.secretString.Some? && reply.secretString.value != "" && parse(reply.secretString.value).None? ==>
        Bootstrap(env, store, parse) == Outcome(Failure(MalformedPayload), env)
  {
  }

  /** An incomplete bundle fails the bootstrap before any write, reporting
      exactly the absent keys, in mapping order. */
  lemma IncompleteBundleFails(env: Env, store: string -> StoreReply, parse: string -> Option<Bundle>, bundle: Bundle)
    requires Retrieves(env, store, parse, bundle) && !Complete(bundle)
    ensures Bootstrap(env, store, parse).env == env
    ensures Bootstrap(env, store, parse).result.Failure?
    ensures Bootstrap(env, store, parse).result.error.MissingSecrets?
    ensures var ks := Bootstrap(env, store, parse).result.error.keys;
      && ks != []
      && (forall k :: k in ks <==> k in SecretKeys && k !in bundle)
      && IsSubsequence(ks, SecretKeys)
  {
    MissingKeysEmpty(bundle);
  }

  /** When every entry is accepted, the bootstrap returns the four mapped
      names with their values and leaves the old environment with exactly
      those four entries overwritten. */
  lemma BootstrapPublishesAll(env: Env, store: string -> StoreReply, parse: string -> Option<Bundle>, bundle: Bundle)
    requires Retrieves(env, store, parse, bundle) && Complete(bundle)
    requires forall i :: 0 <= i < |SecretEnvMapping| ==> EntryOk(bundle, i)
    ensures Bootstrap(env, store, parse).result.Success?
    ensures var m := Bootstrap(env, store, parse).result.value;
      && m.Keys == MappedNames
      && (forall i :: 0 <= i < |SecretEnvMapping| ==> m[SecretEnvMapping[i].name] == EntryValue(bundle, i).value)
      && Bootstrap(env, store, parse).env == env + m
  {
    var n := |SecretEnvMapping|;
    MissingKeysEmpty(bundle);
    PublishPrefixWrites(env, bundle, n);
    PublishPrefixFrame(env, bundle, n);
    var e := PublishPrefix(env, bundle, n).env;
    var m := ReadBack(e);
    assert Bootstrap(env, store, parse) == Outcome(Success(m), e);
    assert PrefixNames(n) == MappedNames;
    forall x | x in MappedNames ensures x in e {
      var i :| 0 <= i < n && SecretEnvMapping[i].name == x;
    }
    assert m.Keys == MappedNames;
    forall x ensures Agrees(e, env + m, x) {
      if x !in MappedNames {
        assert Agrees(env, e, x);
      }
    }
    assert e == env + m;
  }

  /** The first iteration `j` that fails decides the bootstrap's error. */
  lemma BootstrapFailsAt(env: Env, store: string -> StoreReply, parse: string -> Option<Bundle>, bundle: Bundle, j: nat)
    requires Retrieves(env, store, parse, bundle) && Complete(bundle)
    requires j < |SecretEnvMapping| && !EntryOk(bundle, j)
    requires forall i :: 0 <= i < j ==> EntryOk(bundle, i)
    ensures Bootstrap(env, store, parse) == Outcome(Failure(EntryError(bundle, j)), PublishPrefix(env, bundle, j).env)
  {
    MissingKeysEmpty(bundle);
    PublishStopsAt(env, bundle, j);
  }

  /** The first iteration at or before `k` that fails, when `k` does. */
  lemma {:induction false} FirstFailure(bundle: Bundle, k: nat) returns (j: nat)
    requires Complete(bundle) && k < |SecretEnvMapping| && !EntryOk(bundle, k)
    ensures j <= k && !EntryOk(bundle, j)
    ensures forall i :: 0 <= i < j ==> EntryOk(bundle, i)
  {
    if forall i :: 0 <= i < k ==> EntryOk(bundle, i) {
      j := k;
    } else {
      var i :| 0 <= i < k && !EntryOk(bundle, i);
      j := FirstFailure(bundle, i);
    }
  }

  /** The bootstrap succeeds exactly when the bundle is complete and every
      entry decodes and is accepted by the environment; it then returns the
      four mapped names, each with its field's value (decoded only for the
      private key), and the environment is the old one with those four
      entries overwritten. */
  lemma BootstrapSucceeds(env: Env, store: string -> StoreReply, parse: string -> Option<Bundle>, bundle: Bundle)
    requires Retrieves(env, store, parse, bundle)
    ensures Bootstrap(env, store, parse).result.Success? <==>
      Complete(bundle) && forall i :: 0 <= i < |SecretEnvMapping| ==> EntryOk(bundle, i)
    ensures Bootstrap(env, store, parse).result.Success? ==>
      var m := Bootstrap(env, store, parse).result.value;
      && m.Keys == MappedNames
      && (forall i :: 0 <= i < |SecretEnvMapping| && SecretEnvMapping[i].key != PrivateKeyField ==>
            m[SecretEnvMapping[i].name] == bundle[SecretEnvMapping[i].key])
      && m[PrivateKeyName] == DecodePrivateKey(bundle[PrivateKeyField]).value
      && Bootstrap(env, store, parse).env == env + m
  {
    MissingKeysEmpty(bundle);
    if Complete(bundle) {
      if forall i :: 0 <= i < |SecretEnvMapping| ==> EntryOk(bundle, i) {
        BootstrapPublishesAll(env, store, parse, bundle);
        assert SecretEnvMapping[3].name == PrivateKeyName && SecretEnvMapping[3].key == PrivateKeyField;
      } else {
        var k :| 0 <= k < |SecretEnvMapping| && !EntryOk(bundle, k);
        var j := FirstFailure(bundle, k);
        BootstrapFailsAt(env, store, parse, bundle, j);
      }
    }
  }

  /** Whatever the store, the parser and the secret hold, the bootstrap
      changes no environment entry outside the four mapped names. */
  lemma BootstrapFrame(env: Env, store: string -> StoreReply, parse: string -> Option<Bundle>)
    ensures forall x :: x !in MappedNames ==> Agrees(env, Bootstrap(env, store, parse).env, x)
  {
    if HasIdentifier(env) {
      var reply := store(env[SecretsNameVar]);
      if reply.Reply? && reply.secretString.Some? && reply.secretString.value != "" {
        var parsed := parse(reply.secretString.value);
        if parsed.Some? {
          var bundle := parsed.value;
          MissingKeysEmpty(bundle);
          if Complete(bundle) {
            PublishPrefixFrame(env, bundle, |SecretEnvMapping|);
            assert PrefixNames(|SecretEnvMapping|) == MappedNames;
          }
        }
      }
    }
  }

  /** A private key that does not decode fails the bootstrap after the
      three earlier entries have been written (when the environment accepted
      them); the private-key entry itself keeps its old state. */
  lemma PrivateKeyDecodeFailureKeepsEarlierWrites(env: Env, store: string -> StoreReply, parse: string -> Option<Bundle>, bundle: Bundle)
    requires Retrieves(env, store, parse, bundle)
    requires "openai_key" in bundle && "github_app_id" in bundle && "github_webhook_secret" in bundle && PrivateKeyField in bundle
    requires Writable(bundle["openai_key"]) && Writable(bundle["github_app_id"]) && Writable(bundle["github_webhook_secret"])
    requires DecodePrivateKey(bundle[PrivateKeyField]).Failure?
    ensures Bootstrap(env, store, parse) == Outcome(Failure(PrivateKeyDecodeFailure),
      env["DYNACONF_OPENAI__KEY" := bundle["openai_key"]]
         ["DYNACONF_GITHUB__APP_ID" := bundle["github_app_id"]]
         ["DYNACONF_GITHUB__WEBHOOK_SECRET" := bundle["github_webhook_secret"]])
    ensures Agrees(env, Bootstrap(env, store, parse).env, PrivateKeyName)
  {
    assert Complete(bundle);
    assert !EntryOk(bundle, 3);
    BootstrapFailsAt(env, store, parse, bundle, 3);
    assert PublishPrefix(env, bundle, 1).env == env["DYNACONF_OPENAI__KEY" := bundle["openai_key"]];
    assert PublishPrefix(env, bundle, 2).env == PublishPrefix(env, bundle, 1).env["DYNACONF_GITHUB__APP_ID" := bundle["github_app_id"]];
  }

  /** Base64 of the UTF-8 encoding of any text decodes back to that text. */
  lemma PrivateKeyRoundTrip(text: string)
    ensures DecodePrivateKey(Base64.Encode(Utf8.Encode(text))) == Success(text)
  {
    var octets := Utf8.Encode(text);
    var encoded := Base64.Encode(octets);
    assert Base64.IsAscii(encoded);
    Base64.DecodeEncode(octets);
    Utf8.DecodeEncode(text);
  }

  /** Publishing base64(text) as github_private_key puts `text` under
      DYNACONF_GITHUB__PRIVATE_KEY, in the environment and in the result. */
  lemma PublishesPlaintextKey(env: Env, store: string -> StoreReply, parse: string -> Option<Bundle>, bundle: Bundle, text: string)
    requires Retrieves(env, store, parse, bundle)
    requires "openai_key" in bundle && "github_app_id" in bundle && "github_webhook_secret" in bundle && PrivateKeyField in bundle
    requires bundle[PrivateKeyField] == Base64.Encode(Utf8.Encode(text))
    requires Writable(text)
    requires Writable(bundle["openai_key"]) && Writable(bundle["github_app_id"]) && Writable(bundle["github_webhook_secret"])
    ensures Bootstrap(env, store, parse).result.Success?
    ensures Bootstrap(env, store, parse).result.value[PrivateKeyName] == text
    ensures Bootstrap(env, store, parse).env[PrivateKeyName] == text
  {
    assert Complete(bundle);
    PrivateKeyRoundTrip(text);
    assert forall i :: 0 <= i < |SecretEnvMapping| ==> EntryOk(bundle, i);
    BootstrapPublishesAll(env, store, parse, bundle);
    assert SecretEnvMapping[3].name == PrivateKeyName;
  }
}
