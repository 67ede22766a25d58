/**
 * Start-up configuration: `getenv` (app.py:12-29) over an environment map, the comma split
 * of the trigger list and the construction of `PyAbsenceConfig` (app.py:58-74).
 */
module AbsenceConfig {
  import opened Wrappers

  /** The process environment: variable name to value. */
  type Env = map<string, string>

  /** Why loading the configuration stopped: a required variable unset or empty, or an integer that does not parse. */
  datatype ConfigError = Missing(name: string) | Malformed(name: string)

  /** The fields of `PyAbsenceConfig` (app.py:58-64). */
  datatype Config = Config(
    triggers: seq<string>,
    delay: int,
    retries: int,
    mqttBroker: string,
    mqttPort: int,
    mqttTopic: string,
    mqttClient: string)

  const TriggersVar := "PYABS_TRIGGERS"
  const DelayVar := "PYABS_DELAY"
  const RetriesVar := "PYABS_RETRIES"
  const BrokerVar := "MQTT_BROKER"
  const PortVar := "MQTT_PORT"
  const TopicVar := "MQTT_TOPIC"
  const ClientVar := "MQTT_CLIENT"

  /** The variables the constructor reads, in the order it reads them (app.py:67-74). */
  const Variables := [TriggersVar, DelayVar, RetriesVar, BrokerVar, PortVar, TopicVar, ClientVar]

  /** The variables whose value goes through `int(...)`. */
  predicate IsIntVariable(name: string) {
    name == DelayVar || name == RetriesVar || name == PortVar
  }

  /** The order of the variables and which of them go through `int(...)`. */
  lemma VariableTable()
    ensures IsIntVariable(DelayVar) && IsIntVariable(RetriesVar) && IsIntVariable(PortVar)
    ensures !IsIntVariable(TriggersVar) && !IsIntVariable(BrokerVar)
    ensures !IsIntVariable(TopicVar) && !IsIntVariable(ClientVar)
    ensures |Variables| == 7 && Variables[0] == TriggersVar && Variables[1] == DelayVar
    ensures Variables[2] == RetriesVar && Variables[3] == BrokerVar && Variables[4] == PortVar
    ensures Variables[5] == TopicVar && Variables[6] == ClientVar
  {
  }

  /** `environ.get(name, "")`: an unset variable reads as the empty string. */
  function Lookup(env: Env, name: string): string {
    if name in env then env[name] else ""
  }

  /** `getenv` (app.py:26-29): fails exactly when the value is empty and the variable is required. */
  function Getenv(env: Env, name: string, required: bool): (r: Result<string, ConfigError>)
    ensures r.Failure? <==> required && (name !in env || env[name] == "")
    ensures r.Failure? ==> r.error == Missing(name)
    ensures r.Success? ==> r.value == (if name in env then env[name] else "")
  {
    var value := Lookup(env, name);
    if value == "" && required then Failure(Missing(name)) else Success(value)
  }

  /** Python's `s.split(sep)` with an explicit separator: the pieces between separators, empty ones included. */
  function Split(s: string, sep: char): (parts: seq<string>)
    ensures |parts| >= 1
    ensures forall i :: 0 <= i < |parts| ==> sep !in parts[i]
    decreases |s|
  {
    if s == [] then [""]
    else
      var rest := Split(s[1..], sep);
      if s[0] == sep then [""] + rest else [[s[0]] + rest[0]] + rest[1..]
  }

  /** Python's `sep.join(parts)`: the reference that `Split` inverts. */
  function Join(parts: seq<string>, sep: char): string
    decreases |parts|
  {
    if parts == [] then ""
    else if |parts| == 1 then parts[0]
    else parts[0] + [sep] + Join(parts[1..], sep)
  }

  /** Joining the pieces of a split gives the original string back. */
  lemma {:induction false} JoinSplit(s: string, sep: char)
    ensures Join(Split(s, sep), sep) == s
    decreases |s|
  {
    if s != [] {
      JoinSplit(s[1..], sep);
      var rest := Split(s[1..], sep);
      if s[0] != sep && |rest| > 1 {
        assert ([[s[0]] + rest[0]] + rest[1..])[1..] == rest[1..];
      }
    }
  }

  /** Splitting a string free of separators gives that string alone. */
  lemma {:induction false} SplitNoSeparator(s: string, sep: char)
    requires sep !in s
    ensures Split(s, sep) == [s]
    decreases |s|
  {
    if s != [] {
      SplitNoSeparator(s[1..], sep);
      assert [s[0]] + s[1..] == s;
    }
  }

  /** A separator-free piece followed by a separator splits off as one element. */
  lemma {:induction false} SplitPiece(p: string, sep: char, rest: string)
    requires sep !in p
    ensures Split(p + [sep] + rest, sep) == [p] + Split(rest, sep)
    decreases |p|
  {
    if p == [] {
      assert [] + [sep] + rest == [sep] + rest;
      assert ([sep] + rest)[1..] == rest;
    } else {
      SplitPiece(p[1..], sep, rest);
      var s := p + [sep] + rest;
      assert s[1..] == p[1..] + [sep] + rest;
      assert [p[0]] + p[1..] == p;
    }
  }

  /** Splitting a join of separator-free pieces gives the pieces back. */
  lemma {:induction false} SplitJoin(parts: seq<string>, sep: char)
    requires |parts| >= 1
    requires forall i :: 0 <= i < |parts| ==> sep !in parts[i]
    ensures Split(Join(parts, sep), sep) == parts
    decreases |parts|
  {
    if |parts| == 1 {
      SplitNoSeparator(parts[0], sep);
    } else {
      SplitJoin(parts[1..], sep);
      SplitPiece(parts[0], sep, Join(parts[1..], sep));
      assert [parts[0]] + parts[1..] == parts;
    }
  }

  /** The trigger list of app.py:67-68: the comma split of a required variable. */
  function Triggers(env: Env): (r: Result<seq<string>, ConfigError>)
    ensures r.Success? <==> Lookup(env, TriggersVar) != ""
    ensures r.Success? ==> r.value == Split(Lookup(env, TriggersVar), ',')
    ensures r.Failure? ==> r.error == Missing(TriggersVar)
    ensures r.Success? ==> |r.value| >= 1 && Join(r.value, ',') == Lookup(env, TriggersVar)
    ensures r.Success? ==> forall i :: 0 <= i < |r.value| ==> ',' !in r.value[i]
  {
    var raw :- Getenv(env, TriggersVar, true);
    JoinSplit(raw, ',');
    Success(Split(raw, ','))
  }

  /** A variable that is accepted: set, non-empty and, for an integer variable, parsed by `parseInt`. */
  predicate Accepted(env: Env, parseInt: string -> Option<int>, name: string) {
    Lookup(env, name) != "" && (IsIntVariable(name) ==> parseInt(Lookup(env, name)).Some?)
  }

  /** `int(getenv(name, True))`; `parseInt` stands for Python's `int`, a failed parse becoming `Malformed`. */
  function GetInt(env: Env, name: string, parseInt: string -> Option<int>): (r: Result<int, ConfigError>)
    ensures r.Success? <==> Lookup(env, name) != "" && parseInt(Lookup(env, name)).Some?
    ensures r.Success? ==> r.value == parseInt(Lookup(env, name)).value
    ensures r.Failure? ==> r.error == (if Lookup(env, name) == "" then Missing(name) else Malformed(name))
  {
    var raw :- Getenv(env, name, true);
    match parseInt(raw)
    case None => Failure(Malformed(name))
    case Some(n) => Success(n)
  }

  /**
   * `PyAbsenceConfig.__init__` (app.py:66-74): reads the variables in order and stops at the
   * first one that is missing or does not parse.
   */
  function Load(env: Env, parseInt: string -> Option<int>): (r: Result<Config, ConfigError>)
    ensures r.Success? <==> forall i :: 0 <= i < |Variables| ==> Accepted(env, parseInt, Variables[i])
    ensures r.Failure? ==>
      (exists i :: 0 <= i < |Variables| && r.error.name == Variables[i] && !Accepted(env, parseInt, Variables[i])
        && forall j :: 0 <= j < i ==> Accepted(env, parseInt, Variables[j]))
    ensures r.Failure? ==> (r.error.Missing? <==> Lookup(env, r.error.name) == "")
    ensures r.Success? ==>
      && r.value.triggers == Split(Lookup(env, TriggersVar), ',')
      && |r.value.triggers| >= 1
      && Some(r.value.delay) == parseInt(Lookup(env, DelayVar))
      && Some(r.value.retries) == parseInt(Lookup(env, RetriesVar))
      && r.value.mqttBroker == Lookup(env, BrokerVar)
      && Some(r.value.mqttPort) == parseInt(Lookup(env, PortVar))
      && r.value.mqttTopic == Lookup(env, TopicVar)
      && r.value.mqttClient == Lookup(env, ClientVar)
  {
    VariableTable();
    var triggers :- Triggers(env);
    var delay :- GetInt(env, DelayVar, parseInt);
    var retries :- GetInt(env, RetriesVar, parseInt);
    var broker :- Getenv(env, BrokerVar, true);
    var port :- GetInt(env, PortVar, parseInt);
    var topic :- Getenv(env, TopicVar, true);
    var client :- Getenv(env, ClientVar, true);
    Success(Config(triggers, delay, retries, broker, port, topic, client))
  }
}
