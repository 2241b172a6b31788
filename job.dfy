/**
 A job, the unit of work of the engine: a name, arguments, an environment of
 raw "key=value" entries, and a string status ("0" for success, anything else
 is the failure reason). The environment accessors and `Run` change the job in
 place; their results are tied to the reference semantics of `EnvStore` and
 `Display`.
 */
module Engine {
  import opened Wrappers
  import opened GoStrings
  import opened EnvStore
  import Display

  /** The status a job gets when no handler is bound to its name. */
  const CommandNotFound: string := "command not found"

  class Job {
    /** The display form of the engine that owns the job. */
    const Eng: string
    const Name: string
    const Args: seq<string>
    /** The status the bound handler returns when run, or None when no handler is bound. */
    const handler: Option<string>
    /** The raw entries, oldest first; only ever appended to. */
    var env: seq<string>
    /** "" until the job has run. */
    var status: string

    /** Every entry holds a `=`: entries are only added by `Setenv`. */
    ghost predicate Valid()
      reads this
    {
      WellFormed(env)
    }

    constructor (eng: string, name: string, args: seq<string>, handler: Option<string>)
      ensures Valid()
      ensures Eng == eng && Name == name && Args == args && this.handler == handler
      ensures env == [] && status == ""
    {
      Eng, Name, Args, this.handler := eng, name, args, handler;
      env, status := [], "";
    }

    /** Appends the entry `key=value`; every earlier entry stays where it was. */
    method Setenv(key: string, value: string)
      requires Valid()
      modifies this`env
      ensures Valid()
      ensures env == old(env) + [Entry(key, value)]
    {
      SetenvKeepsWellFormed(env, key, value);
      env := env + [key + "=" + value];
    }

    /**
     Scans the entries oldest first, skipping those without `=`, and keeps the
     value of each entry whose key is `key`: the last such value wins.
     */
    method Getenv(key: string) returns (value: string)
      ensures value == Lookup(env, key)
    {
      value := "";
      var i := 0;
      while i < |env|
        invariant 0 <= i <= |env|
        invariant value == Lookup(env[..i], key)
      {
        var kv := env[i];
        assert env[..i + 1][..i] == env[..i];
        if Index(kv, '=') != -1 {
          var parts := SplitN(kv, '=');
          if parts[0] == key {
            if |parts| < 2 {
              // An entry holding `=` always splits in two.
              assert false;
            } else {
              value := parts[1];
            }
          }
        }
        i := i + 1;
      }
      assert env[..i] == env;
    }

    /**
     Replays the entries into a map. Its keys are exactly the entries' keys, and
     under each key it holds what `Getenv` reads.
     */
    method Environ() returns (m: map<string, string>)
      requires Valid()
      ensures m.Keys == Keys(env)
      ensures forall k :: k in m ==> m[k] == Lookup(env, k)
    {
      m := map[];
      var i := 0;
      while i < |env|
        invariant 0 <= i <= |env|
        invariant m.Keys == Keys(env[..i])
        invariant forall k :: k in m ==> m[k] == Lookup(env[..i], k)
      {
        var kv := env[i];
        var parts := SplitN(kv, '=');
        assert env[..i + 1] == env[..i] + [kv];
        assert Keys(env[..i + 1]) == Keys(env[..i]) + {Key(kv)};
        m := m[parts[0] := parts[1]];
        i := i + 1;
      }
      assert env[..i] == env;
    }

    /**
     Reads `key` as a boolean: false exactly when the value, trimmed of spaces
     and tabs and lower-cased, is "", "0", "no", "false" or "none".
     */
    method GetenvBool(key: string) returns (value: bool)
      ensures value == !Falsy(Lookup(env, key))
    {
      var raw := Getenv(key);
      var s := ToLower(Trim(raw, " \t"));
      assert Falsy(raw) <==> s in FalseWords;
      if s == "" || s == "0" || s == "no" || s == "false" || s == "none" {
        return false;
      }
      return true;
    }

    /** Stores "1" for true and "0" for false. */
    method SetenvBool(key: string, value: bool)
      requires Valid()
      modifies this`env
      ensures Valid()
      ensures env == old(env) + [Entry(key, if value then "1" else "0")]
    {
      if value {
        Setenv(key, "1");
      } else {
        Setenv(key, "0");
      }
    }

    /**
     Runs the handler, or records "command not found" when there is none.
     The run fails, with the error text `name: status`, exactly when the
     status is not "0".
     */
    method Run() returns (err: Option<string>)
      modifies this`status
      ensures status == if handler.Some? then handler.value else CommandNotFound
      ensures err.None? <==> status == "0"
      ensures err.Some? ==> err.value == Name + ": " + status
    {
      if handler.None? {
        status := CommandNotFound;
      } else {
        status := handler.value;
      }
      if status != "0" {
        return Some(Name + ": " + status);
      }
      return None;
    }

    /**
     The line `Logf(format)` writes for this job: the job's description in
     brackets, then `format` without its trailing newlines, then one newline.
     */
    function LogLine(format: string): (line: string)
      reads this
      ensures "[" + String() + "] " <= line
      ensures line[|line| - 1] == '\n' && line[|line| - 2] != '\n'
    {
      Display.LogLine(String(), format)
    }

    /** The human-readable description of the job in its current state. */
    function String(): (s: string)
      reads this
      ensures Display.Head(Eng, Name, Args) <= s
      ensures status == "" <==> s == Display.Head(Eng, Name, Args)
    {
      Display.Describe(Eng, Name, Args, status)
    }
  }
}
