/**
 The meaning of a job's environment: an append-only sequence of raw "key=value"
 entries, read with last-write-wins. The functions here are the reference
 semantics that the imperative accessors of `Engine.Job` are proved against;
 the lemmas state what a write does to later reads.
 */
module EnvStore {
  import opened GoStrings

  /** The separator between an entry's key and its value. */
  const Sep: char := '='

  /** The entry that `Setenv(key, value)` stores. */
  function Entry(key: string, value: string): string {
    key + "=" + value
  }

  /** An entry's key: its text before the first `=` (the whole entry when it holds none). */
  function Key(kv: string): string {
    SplitN(kv, Sep)[0]
  }

  /** An entry's value: its text after the first `=`. */
  function Value(kv: string): string
    requires Sep in kv
  {
    SplitN(kv, Sep)[1]
  }

  /** The entries a read under `key` takes into account: those holding `=` whose key is `key`. */
  predicate Matches(kv: string, key: string) {
    Sep in kv && Key(kv) == key
  }

  /** Every entry holds a `=`, as every entry written by `Setenv` does. */
  ghost predicate WellFormed(env: seq<string>) {
    forall i :: 0 <= i < |env| ==> Sep in env[i]
  }

  /**
   The value read under `key`: that of the last matching entry, found by
   scanning from the end, or "" when no entry matches.
   */
  function Lookup(env: seq<string>, key: string): string {
    if env == [] then ""
    else if Matches(env[|env| - 1], key) then Value(env[|env| - 1])
    else Lookup(env[..|env| - 1], key)
  }

  /** The keys of all entries. */
  function Keys(env: seq<string>): set<string> {
    set kv | kv in env :: Key(kv)
  }

  /** The entry written by `Setenv` holds `=`, and reads back as its key and value when the key holds no `=`. */
  lemma EntrySplits(key: string, value: string)
    requires Sep !in key
    ensures Sep in Entry(key, value)
    ensures Key(Entry(key, value)) == key && Value(Entry(key, value)) == value
  {
    SplitNJoin(key, Sep, value);
  }

  /** The entry `Setenv` appends holds `=`, so appending it keeps every entry well-formed. */
  lemma SetenvKeepsWellFormed(env: seq<string>, key: string, value: string)
    requires WellFormed(env)
    ensures WellFormed(env + [Entry(key, value)])
  {
    assert Entry(key, value)[|key|] == Sep;
  }

  /** `Lookup` returns the value of the last matching entry. */
  lemma {:induction false} LookupIsLastMatch(env: seq<string>, key: string, i: nat)
    requires i < |env| && Matches(env[i], key)
    requires forall j :: i < j < |env| ==> !Matches(env[j], key)
    ensures Lookup(env, key) == Value(env[i])
  {
    if i < |env| - 1 {
      var init := env[..|env| - 1];
      assert init[i] == env[i];
      assert forall j :: i < j < |init| ==> init[j] == env[j];
      LookupIsLastMatch(init, key, i);
    }
  }

  /** `Lookup` returns "" when no entry matches. */
  lemma {:induction false} LookupNoMatch(env: seq<string>, key: string)
    requires forall j :: 0 <= j < |env| ==> !Matches(env[j], key)
    ensures Lookup(env, key) == ""
  {
    if env != [] {
      var init := env[..|env| - 1];
      assert forall j :: 0 <= j < |init| ==> init[j] == env[j];
      LookupNoMatch(init, key);
    }
  }

  /** A key outside `Keys(env)` reads as "". */
  lemma LookupOutsideKeys(env: seq<string>, key: string)
    requires key !in Keys(env)
    ensures Lookup(env, key) == ""
  {
    forall j | 0 <= j < |env|
      ensures !Matches(env[j], key)
    {
      assert env[j] in env;
    }
    LookupNoMatch(env, key);
  }

  /** Right after `Setenv(key, value)` with a key free of `=`, a read under `key` gives `value`, whatever came before. */
  lemma LookupAfterSetenv(env: seq<string>, key: string, value: string)
    requires Sep !in key
    ensures Lookup(env + [Entry(key, value)], key) == value
  {
    EntrySplits(key, value);
    var env' := env + [Entry(key, value)];
    assert env'[|env'| - 1] == Entry(key, value);
  }

  /** `Setenv(key, value)` with a key free of `=` leaves the read under every other key unchanged. */
  lemma LookupOtherKeyAfterSetenv(env: seq<string>, key: string, value: string, other: string)
    requires Sep !in key && other != key
    ensures Lookup(env + [Entry(key, value)], other) == Lookup(env, other)
  {
    EntrySplits(key, value);
    var env' := env + [Entry(key, value)];
    assert env'[|env'| - 1] == Entry(key, value);
    assert env'[..|env'| - 1] == env;
  }

  /** Two writes to the same key free of `=`: the later one is read, the earlier one stays stored. */
  lemma LastWriteWins(env: seq<string>, key: string, v1: string, v2: string)
    requires Sep !in key
    ensures Lookup(env + [Entry(key, v1)] + [Entry(key, v2)], key) == v2
    ensures (env + [Entry(key, v1)] + [Entry(key, v2)])[|env|] == Entry(key, v1)
  {
    LookupAfterSetenv(env + [Entry(key, v1)], key, v2);
  }

  /** A key that holds `=` is never read back: every read under it gives "". */
  lemma {:induction false} LookupKeyWithSeparator(env: seq<string>, key: string)
    requires Sep in key
    ensures Lookup(env, key) == ""
  {
    if env != [] {
      assert Sep !in Key(env[|env| - 1]);
      LookupKeyWithSeparator(env[..|env| - 1], key);
    }
  }

  /**
   `Setenv(key, value)` with a key holding `=` stores its write under the part of
   `key` before the first `=`; the rest of `key` becomes part of the value.
   */
  lemma SetenvKeyWithSeparator(env: seq<string>, key: string, value: string)
    requires Sep in key
    ensures Lookup(env + [Entry(key, value)], Key(key)) == Value(key) + "=" + value
    ensures Key(key) != key
  {
    SplitNInsideKey(key, Sep, value);
    var env' := env + [Entry(key, value)];
    assert env'[|env'| - 1] == key + [Sep] + value;
  }

  /** The values a boolean read takes as false, after trimming and lower-casing. */
  const FalseWords: set<string> := {"", "0", "no", "false", "none"}

  /** The boolean rule of `GetenvBool`: a raw value is false when, trimmed of spaces and tabs and lower-cased, it is one of `FalseWords`. */
  predicate Falsy(raw: string) {
    ToLower(Trim(raw, " \t")) in FalseWords
  }

  /** Spaces and tabs around a raw value do not change how it reads as a boolean. */
  lemma FalsyIgnoresPadding(pre: string, raw: string, post: string)
    requires forall k :: 0 <= k < |pre| ==> pre[k] in " \t"
    requires forall k :: 0 <= k < |post| ==> post[k] in " \t"
    ensures Falsy(pre + raw + post) == Falsy(raw)
  {
    TrimPadding(pre, raw, post, " \t");
  }

  /** Only spaces and tabs are trimmed: a trailing newline keeps a false word from reading as false. */
  lemma NewlineNotTrimmed()
    ensures !Falsy("no\n")
  {
    var w := "no\n";
    assert w[0] !in " \t" && w[2] !in " \t";
    assert TrimLeft(w, " \t") == w;
    assert TrimRight(w, " \t") == w;
    assert ToLower(w)[2] == '\n';
  }

  /** Spaces and tabs are not letters, so lower-casing never makes or removes one. */
  lemma BlanksCaseBlind()
    ensures CaseBlind(" \t")
  {
  }

  /** The boolean rule ignores letter case. */
  lemma FalsyIgnoresCase(raw: string)
    ensures Falsy(ToLower(raw)) == Falsy(raw)
  {
    BlanksCaseBlind();
    TrimToLower(raw, " \t");
    ToLowerIdempotent(Trim(raw, " \t"));
  }

  /** What `SetenvBool` writes reads back as the boolean written, under a key free of `=`. */
  lemma BoolRoundTrip(env: seq<string>, key: string, b: bool)
    requires Sep !in key
    ensures Falsy(Lookup(env + [Entry(key, if b then "1" else "0")], key)) == !b
  {
    var raw := if b then "1" else "0";
    LookupAfterSetenv(env, key, raw);
    DigitFalsy(if b then '1' else '0');
    assert [if b then '1' else '0'] == raw;
  }

  /** The two digits `SetenvBool` writes: "0" reads as false and "1" as true. */
  lemma DigitFalsy(c: char)
    requires c == '0' || c == '1'
    ensures Falsy([c]) == (c == '0')
  {
    if c == '0' {
      ZeroFalsy();
      assert [c] == "0";
    } else {
      OneTruthy();
      assert [c] == "1";
    }
  }

  /** "0" reads as false. */
  lemma ZeroFalsy()
    ensures Falsy("0")
  {
    DigitReadsAsItself('0');
    assert "0" == ['0'];
    FalsyReadsAs("0", "0");
  }

  /** "1" reads as true. */
  lemma OneTruthy()
    ensures !Falsy("1")
  {
    DigitReadsAsItself('1');
    assert "1" == ['1'];
    FalsyReadsAs("1", "1");
    OneNotFalseWord();
  }

  /** "1" is not one of the false words. */
  lemma OneNotFalseWord()
    ensures "1" !in FalseWords
  {
  }

  /** A raw value is false exactly when the word it normalizes to is one of `FalseWords`. */
  lemma FalsyReadsAs(raw: string, w: string)
    requires ToLower(Trim(raw, " \t")) == w
    ensures Falsy(raw) <==> w in FalseWords
  {
  }

  /** Trimming and lower-casing leave a digit as it is. */
  lemma DigitReadsAsItself(c: char)
    requires c == '0' || c == '1'
    ensures ToLower(Trim([c], " \t")) == [c]
  {
    assert c !in " \t";
    TrimSingle(c, " \t");
    LowerSingle(c);
    assert LowerChar(c) == c;
  }
}
