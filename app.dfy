/**
 * app.py: the preset colour table and `reconcile_theme_config`, which copies
 * the four theme colours from the session state into the host application's
 * option store whenever they differ, and asks for a rerun if it copied any.
 *
 * The option store is a class with an `options` map (a name absent from the
 * map reads as None, as an unset theme option does) and a ghost log of the
 * `set_option` calls made. The session state is only read here, so it is a
 * plain map parameter. The rerun is returned as an outcome instead of being
 * performed.
 */
module App {
  import opened Wrappers
  import opened Util

  /** The four colours a preset names. */
  datatype ThemeColors = ThemeColors(
    primaryColor: string,
    backgroundColor: string,
    secondaryBackgroundColor: string,
    textColor: string)

  /** `preset_colors` before any colour from the initial config is appended. */
  const PresetColors: seq<(string, ThemeColors)> := [
    ("Default light", ThemeColors("#ff4b4b", "#ffffff", "#f0f2f6", "#31333F")),
    ("Default dark", ThemeColors("#ff4b4b", "#0e1117", "#262730", "#fafafa"))
  ]

  predicate AllParse(t: ThemeColors)
  {
    && ParseHex(t.primaryColor).Ok?
    && ParseHex(t.backgroundColor).Ok?
    && ParseHex(t.secondaryBackgroundColor).Ok?
    && ParseHex(t.textColor).Ok?
  }

  /** Every preset colour, the mixed-case "#31333F" included, passes parse_hex in set_color. */
  lemma PresetsParse()
    ensures forall i :: 0 <= i < |PresetColors| ==> AllParse(PresetColors[i].1)
    ensures ParseHex("#31333F") == Ok(Rgb(Channel(49), Channel(51), Channel(63)))
  {
    assert IsHexColor("#31333F");
    assert ParseHex("#31333F").value == Rgb(Channel(ByteAt("#31333F", 1)), Channel(ByteAt("#31333F", 3)), Channel(ByteAt("#31333F", 5)));
    assert ByteAt("#31333F", 1) == 49 && ByteAt("#31333F", 3) == 51 && ByteAt("#31333F", 5) == 63;
    assert IsHexColor("#ff4b4b") && IsHexColor("#ffffff") && IsHexColor("#f0f2f6");
    assert IsHexColor("#0e1117") && IsHexColor("#262730") && IsHexColor("#fafafa");
  }

  const ThemeKeys: seq<string> := ["primaryColor", "backgroundColor", "secondaryBackgroundColor", "textColor"]

  /** `f'theme.{key}'` */
  function OptionName(key: string): string
  {
    "theme." + key
  }

  lemma OptionNameInjective(a: string, b: string)
    requires OptionName(a) == OptionName(b)
    ensures a == b
  {
    assert a == OptionName(a)[6..] && b == OptionName(b)[6..];
  }

  predicate NoDuplicates(keys: seq<string>)
  {
    forall i, j :: 0 <= i < j < |keys| ==> keys[i] != keys[j]
  }

  lemma ThemeKeysDistinct()
    ensures NoDuplicates(ThemeKeys)
  {
    assert ThemeKeys[0][0] == 'p' && ThemeKeys[1][0] == 'b' && ThemeKeys[2][0] == 's' && ThemeKeys[3][0] == 't';
  }

  /** The option store of the host application. */
  class Config {
    /** The options that hold a value; any other name reads as None. */
    var options: map<string, string>
    /** The names passed to set_option so far, in call order. */
    ghost var writes: seq<string>

    constructor (initial: map<string, string>)
      ensures options == initial && writes == []
    {
      options := initial;
      writes := [];
    }

    /** `get_option(name)` */
    function GetOption(name: string): Option<string>
      reads this
    {
      if name in options then Some(options[name]) else None
    }

    /** `set_option(name, value)` */
    method SetOption(name: string, value: string)
      modifies this
      ensures options == old(options)[name := value]
      ensures writes == old(writes) + [name]
    {
      options := options[name := value];
      writes := writes + [name];
    }
  }

  /** `get_option(f'theme.{key}') != session_state[key]` */
  predicate Mismatch(options: map<string, string>, session: map<string, string>, key: string)
    requires key in session
  {
    OptionName(key) !in options || options[OptionName(key)] != session[key]
  }

  /**
   * The options after the loop, the names written in order, and the first
   * key missing from the session state, at which the loop raises KeyError.
   */
  datatype SyncResult = SyncResult(options: map<string, string>, written: seq<string>, missing: Option<string>)

  /** What the loop over `keys` does, one key at a time. */
  function Sync(keys: seq<string>, options: map<string, string>, session: map<string, string>): SyncResult
    decreases |keys|
  {
    if keys == [] then SyncResult(options, [], None)
    else
      var key := keys[0];
      if key !in session then SyncResult(options, [], Some(key))
      else if Mismatch(options, session, key) then
        var rest := Sync(keys[1..], options[OptionName(key) := session[key]], session);
        rest.(written := [OptionName(key)] + rest.written)
      else Sync(keys[1..], options, session)
  }

  /** What happens after the loop: st.rerun(), nothing, or the KeyError. */
  datatype Outcome = Rerun | NoRerun | MissingSessionKey(key: string)

  function OutcomeOf(r: SyncResult): Outcome
  {
    if r.missing.Some? then MissingSessionKey(r.missing.value)
    else if r.written != [] then Rerun
    else NoRerun
  }

  /** reconcile_theme_config (app.py:170-178). */
  method ReconcileThemeConfig(config: Config, session: map<string, string>) returns (outcome: Outcome)
    modifies config
    ensures var spec := Sync(ThemeKeys, old(config.options), session);
      && config.options == spec.options
      && config.writes == old(config.writes) + spec.written
      && outcome == OutcomeOf(spec)
  {
    outcome := Reconcile(config, session, ThemeKeys);
  }

  /** The body of reconcile_theme_config for a given key list. */
  method Reconcile(config: Config, session: map<string, string>, keys: seq<string>) returns (outcome: Outcome)
    modifies config
    ensures var spec := Sync(keys, old(config.options), session);
      && config.options == spec.options
      && config.writes == old(config.writes) + spec.written
      && outcome == OutcomeOf(spec)
  {
    var hasChanged := false;
    ghost var done: seq<string> := [];
    var i := 0;
    while i < |keys|
      invariant 0 <= i <= |keys|
      invariant config.writes == old(config.writes) + done
      invariant hasChanged <==> done != []
      invariant var rest := Sync(keys[i..], config.options, session);
        Sync(keys, old(config.options), session) == rest.(written := done + rest.written)
    {
      var key := keys[i];
      SyncStep(keys, i, config.options, session);
      if key !in session {
        outcome := MissingSessionKey(key);
        return;
      }
      if config.GetOption(OptionName(key)) != Some(session[key]) {
        config.SetOption(OptionName(key), session[key]);
        hasChanged := true;
        done := done + [OptionName(key)];
      }
      i := i + 1;
    }
    if hasChanged {
      outcome := Rerun;
    } else {
      outcome := NoRerun;
    }
  }

  /** One turn of the loop: Sync over keys[i..] looks at keys[i] and goes on with keys[i + 1..]. */
  lemma SyncStep(keys: seq<string>, i: nat, options: map<string, string>, session: map<string, string>)
    requires i < |keys|
    ensures var key := keys[i];
      Sync(keys[i..], options, session) ==
        if key !in session then SyncResult(options, [], Some(key))
        else if Mismatch(options, session, key) then
          var rest := Sync(keys[i + 1..], options[OptionName(key) := session[key]], session);
          rest.(written := [OptionName(key)] + rest.written)
        else Sync(keys[i + 1..], options, session)
  {
    assert keys[i..][0] == keys[i] && keys[i..][1..] == keys[i + 1..];
  }

  /** The loop raises exactly when some key is missing, and then at the first one. */
  lemma {:induction false} SyncMissing(keys: seq<string>, options: map<string, string>, session: map<string, string>)
    ensures var r := Sync(keys, options, session);
      && (r.missing.None? <==> forall k :: k in keys ==> k in session)
      && (r.missing.Some? ==>
            exists j :: (0 <= j < |keys| && keys[j] == r.missing.value
              && keys[j] !in session && forall i :: 0 <= i < j ==> keys[i] in session))
    decreases |keys|
  {
    if keys != [] && keys[0] in session {
      var o' := if Mismatch(options, session, keys[0]) then options[OptionName(keys[0]) := session[keys[0]]] else options;
      SyncMissing(keys[1..], o', session);
      var r := Sync(keys[1..], o', session);
      assert forall k :: k in keys <==> k == keys[0] || k in keys[1..];
      if r.missing.Some? {
        var j :| 0 <= j < |keys[1..]| && keys[1..][j] == r.missing.value
          && keys[1..][j] !in session && forall i :: 0 <= i < j ==> keys[1..][i] in session;
        assert keys[j + 1] == r.missing.value;
        assert forall i :: 0 <= i < j + 1 ==> keys[i] in session by {
          forall i | 0 <= i < j + 1 ensures keys[i] in session {
            if i > 0 { assert keys[i] == keys[1..][i - 1]; }
          }
        }
      }
    }
  }

  /** After a run that does not raise, each key's option holds its session value. */
  lemma {:induction false} SyncAgrees(keys: seq<string>, options: map<string, string>, session: map<string, string>)
    requires NoDuplicates(keys)
    requires forall k :: k in keys ==> k in session
    ensures forall k :: k in keys ==>
      OptionName(k) in Sync(keys, options, session).options && Sync(keys, options, session).options[OptionName(k)] == session[k]
    decreases |keys|
  {
    if keys != [] {
      var key := keys[0];
      var o' := if Mismatch(options, session, key) then options[OptionName(key) := session[key]] else options;
      assert OptionName(key) in o' && o'[OptionName(key)] == session[key];
      assert NoDuplicates(keys[1..]);
      assert forall k :: k in keys <==> k == key || k in keys[1..];
      SyncAgrees(keys[1..], o', session);
      SyncFrame(keys[1..], o', session);
      forall k | k in keys[1..]
        ensures OptionName(k) != OptionName(key)
      {
        var j :| 0 <= j < |keys[1..]| && keys[1..][j] == k;
        assert keys[j + 1] == k;
        if OptionName(k) == OptionName(key) { OptionNameInjective(k, key); }
      }
    }
  }

  /** Options other than the keys' own are never touched. */
  lemma {:induction false} SyncFrame(keys: seq<string>, options: map<string, string>, session: map<string, string>)
    ensures forall name :: (forall k :: k in keys ==> OptionName(k) != name) ==>
      var r := Sync(keys, options, session);
      (name in r.options <==> name in options) && (name in options ==> r.options[name] == options[name])
    decreases |keys|
  {
    if keys != [] && keys[0] in session {
      var key := keys[0];
      var o' := if Mismatch(options, session, key) then options[OptionName(key) := session[key]] else options;
      SyncFrame(keys[1..], o', session);
      assert forall k :: k in keys[1..] ==> k in keys;
    }
  }

  /** The names of the keys whose option differs from the session value before the loop. */
  function MismatchedNames(keys: seq<string>, options: map<string, string>, session: map<string, string>): seq<string>
    requires forall k :: k in keys ==> k in session
    decreases |keys|
  {
    if keys == [] then []
    else
      assert keys[0] in keys;
      assert forall k :: k in keys[1..] ==> k in keys;
      var rest := MismatchedNames(keys[1..], options, session);
      if Mismatch(options, session, keys[0]) then [OptionName(keys[0])] + rest else rest
  }

  /** Setting an option that belongs to none of the keys does not change which keys mismatch. */
  lemma {:induction false} MismatchedNamesFrame(keys: seq<string>, options: map<string, string>, session: map<string, string>, key: string, value: string)
    requires forall k :: k in keys ==> k in session
    requires key !in keys
    ensures MismatchedNames(keys, options[OptionName(key) := value], session) == MismatchedNames(keys, options, session)
    decreases |keys|
  {
    if keys != [] {
      assert keys[0] in keys;
      assert forall k :: k in keys[1..] ==> k in keys;
      if OptionName(keys[0]) == OptionName(key) { OptionNameInjective(keys[0], key); }
      MismatchedNamesFrame(keys[1..], options, session, key, value);
    }
  }

  /** Only the mismatched keys are written, each once, in key order. */
  lemma {:induction false} SyncWritesMismatched(keys: seq<string>, options: map<string, string>, session: map<string, string>)
    requires NoDuplicates(keys)
    requires forall k :: k in keys ==> k in session
    ensures Sync(keys, options, session).written == MismatchedNames(keys, options, session)
    decreases |keys|
  {
    if keys != [] {
      var key := keys[0];
      assert key in keys;
      assert NoDuplicates(keys[1..]);
      assert forall k :: k in keys[1..] ==> k in keys;
      assert key !in keys[1..];
      if Mismatch(options, session, key) {
        var o' := options[OptionName(key) := session[key]];
        SyncWritesMismatched(keys[1..], o', session);
        MismatchedNamesFrame(keys[1..], options, session, key, session[key]);
      } else {
        SyncWritesMismatched(keys[1..], options, session);
      }
    }
  }

  /** The list of mismatched names is empty exactly when every key already matches. */
  lemma {:induction false} MismatchedNamesEmpty(keys: seq<string>, options: map<string, string>, session: map<string, string>)
    requires forall k :: k in keys ==> k in session
    ensures MismatchedNames(keys, options, session) != [] <==> exists k :: k in keys && Mismatch(options, session, k)
    decreases |keys|
  {
    if keys != [] {
      assert keys[0] in keys;
      assert forall k :: k in keys <==> k == keys[0] || k in keys[1..];
      MismatchedNamesEmpty(keys[1..], options, session);
    }
  }

  /** Rerun happens exactly when one of the four options differed from the session state. */
  lemma ReconcileRerunIff(options: map<string, string>, session: map<string, string>)
    requires forall k :: k in ThemeKeys ==> k in session
    ensures var r := Sync(ThemeKeys, options, session);
      && (OutcomeOf(r) == Rerun <==> exists k :: k in ThemeKeys && Mismatch(options, session, k))
      && (OutcomeOf(r) == NoRerun <==> forall k :: k in ThemeKeys ==> !Mismatch(options, session, k))
      && (forall k :: k in ThemeKeys ==> OptionName(k) in r.options && r.options[OptionName(k)] == session[k])
  {
    ThemeKeysDistinct();
    SyncMissing(ThemeKeys, options, session);
    SyncWritesMismatched(ThemeKeys, options, session);
    MismatchedNamesEmpty(ThemeKeys, options, session);
    SyncAgrees(ThemeKeys, options, session);
  }

  /** A second run straight after a first one writes nothing and asks for no rerun. */
  lemma SyncIdempotent(keys: seq<string>, options: map<string, string>, session: map<string, string>)
    requires NoDuplicates(keys)
    requires forall k :: k in keys ==> k in session
    ensures var r := Sync(keys, options, session);
      Sync(keys, r.options, session) == SyncResult(r.options, [], None)
  {
    var r := Sync(keys, options, session);
    SyncAgrees(keys, options, session);
    SyncMissing(keys, r.options, session);
    SyncWritesMismatched(keys, r.options, session);
    MismatchedNamesEmpty(keys, r.options, session);
    SyncKeepsAll(keys, r.options, session);
  }

  /** A run that writes nothing leaves the options as they were. */
  lemma {:induction false} SyncKeepsAll(keys: seq<string>, options: map<string, string>, session: map<string, string>)
    requires forall k :: k in keys ==> k in session && !Mismatch(options, session, k)
    ensures Sync(keys, options, session).options == options
    decreases |keys|
  {
    if keys != [] {
      assert keys[0] in keys;
      assert forall k :: k in keys[1..] ==> k in keys;
      SyncKeepsAll(keys[1..], options, session);
    }
  }
}
