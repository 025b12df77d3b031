// Secret config values on the wire (internal/manifest/secrets.go): echoed as a
// sentinel, and resolved back to what the device has stored.
module ManifestSecrets {
  import opened Jcs
  import opened Wrappers

  type Config = map<string, Value>

  const SENTINEL := "__OBACHT_SECRET_KEEP__"
  const SECRET_KEYS_MARKER := "__secret_keys"
  const INPUT_KEY := "__input"

  const KEEP := Str(SENTINEL)

  /** The names in a marker list; entries that are not strings are skipped. */
  function StringsOf(list: seq<Value>): set<string> {
    set v | v in list && v.Str? :: v.s
  }

  /** Which keys are secret: the marker list if there is one, else the heuristic. */
  predicate IsSecret(cfg: Config, heuristic: string -> bool, key: string) {
    if SECRET_KEYS_MARKER in cfg && cfg[SECRET_KEYS_MARKER].Arr?
    then key in StringsOf(cfg[SECRET_KEYS_MARKER].elems)
    else heuristic(key)
  }

  function EchoedValue(secret: bool, v: Value): Value {
    if !secret then v else if v == Str("") then v else KEEP
  }

  function Echoed(cfg: Config, heuristic: string -> bool, input: Config): Config {
    map k | k in input :: EchoedValue(IsSecret(cfg, heuristic, k), input[k])
  }

  /** The stored user input, when there is anything to echo. */
  function StoredInput(cfg: Option<Config>): Option<Config> {
    if cfg.Some? && INPUT_KEY in cfg.value && cfg.value[INPUT_KEY].Obj? && cfg.value[INPUT_KEY].fields != map[]
    then Some(cfg.value[INPUT_KEY].fields)
    else None
  }

  predicate HoldsMembers(v: Value) {
    v.Obj? && v.fields != map[]
  }

  /** Key by key, over what is stored: with a marker list the sentinel stands for exactly
      the values it names, without one for those the heuristic finds; an empty value is
      echoed as it is, and so is every other. */
  predicate HidesTheSecrets(cfg: Config, heuristic: string -> bool, input: Config, echo: Config) {
    && echo.Keys == input.Keys
    && (if "__secret_keys" in cfg && cfg["__secret_keys"].Arr? then
          forall k <- input ::
            echo[k] == if Str(k) in cfg["__secret_keys"].elems && input[k] != Str("")
                       then Str("__OBACHT_SECRET_KEEP__") else input[k]
        else
          forall k <- input ::
            echo[k] == if heuristic(k) && input[k] != Str("") then Str("__OBACHT_SECRET_KEEP__") else input[k])
  }

  /** `cfg` is None when the stored config is empty or does not parse. */
  method RedactedInputEcho(cfg: Option<Config>, heuristic: string -> bool) returns (echo: Option<Config>)
    ensures echo.Some? <==> StoredInput(cfg).Some?
    ensures echo.Some? ==> echo.value == Echoed(cfg.value, heuristic, StoredInput(cfg).value)
    ensures echo.Some? <==> cfg.Some? && "__input" in cfg.value && HoldsMembers(cfg.value["__input"])
    ensures echo.Some? ==> HidesTheSecrets(cfg.value, heuristic, cfg.value["__input"].fields, echo.value)
  {
    if cfg.None? {
      return None;
    }
    if !(INPUT_KEY in cfg.value && cfg.value[INPUT_KEY].Obj?) || cfg.value[INPUT_KEY].fields == map[] {
      return None;
    }
    var input := cfg.value[INPUT_KEY].fields;
    var hasMarker := SECRET_KEYS_MARKER in cfg.value && cfg.value[SECRET_KEYS_MARKER].Arr?;
    var secretSet := {};
    if hasMarker {
      secretSet := SecretSet(cfg.value[SECRET_KEYS_MARKER].elems);
    }
    var out: Config := map[];
    var left := input.Keys;
    while left != {}
      invariant left <= input.Keys && out.Keys == input.Keys - left
      invariant forall k | k in out :: out[k] == EchoedValue(IsSecret(cfg.value, heuristic, k), input[k])
      decreases left
    {
      var k :| k in left;
      var isSecret := if hasMarker then k in secretSet else heuristic(k);
      if !isSecret {
        out := out[k := input[k]];
      } else if input[k] == Str("") {
        out := out[k := Str("")];
      } else {
        out := out[k := KEEP];
      }
      left := left - {k};
    }
    echo := Some(out);
  }

  method SecretSet(list: seq<Value>) returns (names: set<string>)
    ensures names == StringsOf(list)
  {
    names := {};
    for i := 0 to |list|
      invariant names == StringsOf(list[..i])
    {
      assert list[..i + 1] == list[..i] + [list[i]];
      if list[i].Str? {
        names := names + {list[i].s};
      }
    }
    assert list[..|list|] == list;
  }

  function ResolvedValue(v: Value, stored: Config, key: string): Value {
    if v != KEEP then v
    else if key in stored && stored[key] != KEEP then stored[key]
    else Str("")
  }

  function Resolved(user: Config, stored: Config): Config {
    map k | k in user :: ResolvedValue(user[k], stored, k)
  }

  method HasSecretSentinel(user: Config) returns (has: bool)
    ensures has <==> exists k | k in user :: user[k] == KEEP
  {
    var left := user.Keys;
    while left != {}
      invariant left <= user.Keys
      invariant forall k | k in user.Keys - left :: user[k] != KEEP
      decreases left
    {
      var k :| k in left;
      if user[k] == KEEP {
        return true;
      }
      left := left - {k};
    }
    has := false;
  }

  method ResolveSecretSentinelsInput(user: Config, stored: Config) returns (out: Config)
    ensures out == Resolved(user, stored)
    ensures out.Keys == user.Keys
    ensures forall k <- user :: user[k] != KEEP ==> out[k] == user[k]
    ensures forall k <- user :: user[k] == KEEP && k in stored && stored[k] != KEEP ==> out[k] == stored[k]
    ensures forall k <- user :: user[k] == KEEP && (k !in stored || stored[k] == KEEP) ==> out[k] == Str("")
  {
    var has := HasSecretSentinel(user);
    if !has {
      return user;
    }
    out := map[];
    var left := user.Keys;
    while left != {}
      invariant left <= user.Keys && out.Keys == user.Keys - left
      invariant forall k | k in out :: out[k] == ResolvedValue(user[k], stored, k)
      decreases left
    {
      var k :| k in left;
      if user[k] != KEEP {
        out := out[k := user[k]];
      } else if k in stored {
        out := out[k := if stored[k] == KEEP then Str("") else stored[k]];
      } else {
        out := out[k := Str("")];
      }
      left := left - {k};
    }
  }

  // ------------------------------------------------------------------- theorems

  ghost predicate HoldsSentinel(c: Config) {
    exists k | k in c :: c[k] == KEEP
  }

  /** Editing the echo and resolving it is the same edit of the stored input;
      without edits this works exactly when nothing stored is the sentinel. */
  lemma EditedEchoResolves(cfg: Config, heuristic: string -> bool, input: Config, edits: Config)
    ensures !HoldsSentinel(input) && !HoldsSentinel(edits) ==>
              Resolved(Echoed(cfg, heuristic, input) + edits, input) == input + edits
    ensures Resolved(Echoed(cfg, heuristic, input), input) == input <==> !HoldsSentinel(input)
  {
    var echo := Echoed(cfg, heuristic, input);
    if !HoldsSentinel(input) && !HoldsSentinel(edits) {
      assert Resolved(echo + edits, input) == input + edits;
    }
    if HoldsSentinel(input) {
      var k :| k in input && input[k] == KEEP;
      assert Resolved(echo, input)[k] == Str("");
    } else {
      assert Resolved(echo, input) == input;
    }
  }

  /** A resolved config never carries the sentinel on. */
  lemma ResolvedHoldsNoSentinel(user: Config, stored: Config)
    ensures !HoldsSentinel(Resolved(user, stored))
  {
    assert SENTINEL != "";
  }

  /** Two inputs that differ in nothing but the text of non-empty secrets. */
  ghost predicate SameButSecrets(cfg: Config, heuristic: string -> bool, a: Config, b: Config) {
    && a.Keys == b.Keys
    && forall k | k in a ::
         if IsSecret(cfg, heuristic, k) then a[k] == Str("") <==> b[k] == Str("") else a[k] == b[k]
  }

  /** The echo reveals that much and nothing more. */
  lemma EchoRevealsNoSecret(cfg: Config, heuristic: string -> bool, a: Config, b: Config)
    ensures Echoed(cfg, heuristic, a) == Echoed(cfg, heuristic, b) <==> SameButSecrets(cfg, heuristic, a, b)
  {
    var x, y := Echoed(cfg, heuristic, a), Echoed(cfg, heuristic, b);
    assert SENTINEL != "";
    if x == y {
      assert a.Keys == x.Keys == y.Keys == b.Keys;
      forall k | k in a
        ensures if IsSecret(cfg, heuristic, k) then a[k] == Str("") <==> b[k] == Str("") else a[k] == b[k]
      {
        assert x[k] == y[k];
      }
    }
  }
}
