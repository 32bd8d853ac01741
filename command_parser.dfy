/** classes/utils/CommandParser.php: the command line becomes an entity
    (`argv[1]`), an action (`argv[2]`) and the options given as `--key=value`
    or `--key` from `argv[3]` on. */
module CommandParser {
  import opened Outcomes
  import opened Arrays
  import Validator

  /** An option's value: the text after the first '=', or PHP's `true`
      for a bare `--key`. */
  datatype OptionValue = Text(text: string) | Flag

  const ValidEntities: seq<string> := ["book", "user", "loan"]

  /** strpos(arg, '--') === 0 */
  predicate IsOptionArg(arg: string) {
    |arg| >= 2 && arg[..2] == "--"
  }

  /** The position of the first `c` in `s`, if any. */
  function FirstIndex(s: string, c: char): (r: Option<nat>)
    ensures r.Some? ==> r.value < |s| && s[r.value] == c && c !in s[..r.value]
    ensures r.None? ==> c !in s
  {
    if s == [] then None
    else if s[0] == c then Some(0)
    else
      match FirstIndex(s[1..], c)
      case None => None
      case Some(i) =>
        assert s[..i + 1] == [s[0]] + s[1..][..i];
        Some(i + 1)
  }

  /** explode('=', arg, 2) and substr(part, 2): the key between "--" and the
      first '=', and the value after it. */
  function OptionEntry(arg: string): (string, OptionValue)
    requires IsOptionArg(arg)
  {
    match FirstIndex(arg, '=')
    case None => (arg[2..], Flag)
    case Some(i) =>
      assert arg[0] == '-' && arg[1] == '-';
      (arg[2..i], Text(arg[i + 1..]))
  }

  /** The options once the constructor's loop has looked at `argv[3..n]`. */
  function OptionsUpTo(argv: seq<string>, n: nat): Assoc<OptionValue>
    requires n <= |argv|
  {
    if n <= 3 then []
    else
      var prev := OptionsUpTo(argv, n - 1);
      var arg := argv[n - 1];
      if IsOptionArg(arg) then Put(prev, OptionEntry(arg).0, OptionEntry(arg).1) else prev
  }

  function Options(argv: seq<string>): Assoc<OptionValue> {
    OptionsUpTo(argv, |argv|)
  }

  /** PHP's empty() of a possibly missing argument. */
  predicate IsMissing(arg: Option<string>) {
    arg.None? || Validator.IsEmpty(arg.value)
  }

  class CommandParser {
    var entity: Option<string>
    var action: Option<string>
    var options: Assoc<OptionValue>

    constructor (argv: seq<string>)
      ensures entity == (if |argv| > 1 then Some(argv[1]) else None)
      ensures action == (if |argv| > 2 then Some(argv[2]) else None)
      ensures options == Options(argv)
    {
      entity := if |argv| > 1 then Some(argv[1]) else None;
      action := if |argv| > 2 then Some(argv[2]) else None;
      options := [];
      new;
      ghost var givenEntity, givenAction := entity, action;
      var i := 3;
      while i < |argv|
        invariant 3 <= i
        invariant entity == givenEntity && action == givenAction
        invariant options == OptionsUpTo(argv, if i <= |argv| then i else |argv|)
        decreases |argv| - i
      {
        var arg := argv[i];
        if IsOptionArg(arg) {
          var entry := OptionEntry(arg);
          options := Put(options, entry.0, entry.1);
        }
        i := i + 1;
      }
    }

    /** getOption: the stored value, or `default` exactly when the key is absent. */
    function GetOption(key: string, default: Option<OptionValue>): (r: Option<OptionValue>)
      reads this
      ensures key in Keys(options) ==> r == Get(options, key) && r.Some?
      ensures key !in Keys(options) ==> r == default
    {
      match Get(options, key)
      case Some(v) => Some(v)
      case None => default
    }

    /** hasOption */
    predicate HasOption(key: string)
      reads this
      ensures HasOption(key) <==> key in Keys(options)
      ensures HasOption(key) ==> forall d :: GetOption(key, d) == Get(options, key)
    {
      Get(options, key).Some?
    }

    /** validate: the entity, then the action, must be present and non-empty,
        and the entity must be one of book, user and loan. */
    function Validate(): (r: Outcome)
      reads this
      ensures r.Pass? <==> entity.Some? && entity.value in ValidEntities && !IsMissing(action)
      ensures IsMissing(entity) ==> r == Fail(MissingEntity)
      ensures !IsMissing(entity) && IsMissing(action) ==> r == Fail(MissingAction)
      ensures r == Fail(UnknownEntity) <==> !IsMissing(entity) && !IsMissing(action) && entity.value !in ValidEntities
    {
      if IsMissing(entity) then Fail(MissingEntity)
      else if IsMissing(action) then Fail(MissingAction)
      else if entity.value !in ValidEntities then Fail(UnknownEntity)
      else Pass
    }
  }

  // ---------------------------------------------------------------------
  // Properties of the option loop

  /** Arguments added after position `n` do not change what the loop had built by then. */
  lemma {:induction false} OptionsPrefixStable(argv: seq<string>, more: seq<string>, n: nat)
    requires n <= |argv|
    ensures OptionsUpTo(argv + more, n) == OptionsUpTo(argv, n)
  {
    if n > 3 {
      OptionsPrefixStable(argv, more, n - 1);
      assert (argv + more)[n - 1] == argv[n - 1];
    }
  }

  /** One more argument: the options so far, updated by it when it is an option. */
  lemma OptionsAppend(argv: seq<string>, arg: string)
    requires |argv| >= 3
    ensures Options(argv + [arg]) ==
      if IsOptionArg(arg) then Put(Options(argv), OptionEntry(arg).0, OptionEntry(arg).1) else Options(argv)
  {
    OptionsPrefixStable(argv, [arg], |argv|);
    assert (argv + [arg])[|argv|] == arg;
  }

  /** The first three arguments (script, entity, action) never produce options. */
  lemma {:induction false} OptionsIgnoreFirstThree(argv: seq<string>, other: seq<string>, n: nat)
    requires |argv| >= 3 && |other| == 3 && n <= |argv|
    ensures OptionsUpTo(other + argv[3..], n) == OptionsUpTo(argv, n)
  {
    if n > 3 {
      OptionsIgnoreFirstThree(argv, other, n - 1);
      assert (other + argv[3..])[n - 1] == argv[n - 1];
    }
  }

  /** An argument that does not start with "--" is ignored. */
  lemma PlainArgumentIgnored(argv: seq<string>, arg: string)
    requires |argv| >= 3 && !IsOptionArg(arg)
    ensures Options(argv + [arg]) == Options(argv)
  {
    OptionsAppend(argv, arg);
  }

  lemma {:induction false} FirstIndexAfter(a: string, c: char, b: string)
    requires c !in a
    ensures FirstIndex(a + [c] + b, c) == Some(|a|)
  {
    if a != [] {
      assert (a + [c] + b)[1..] == a[1..] + [c] + b;
      FirstIndexAfter(a[1..], c, b);
    }
  }

  /** `--key=value` splits at the first '=', after a key without one. */
  lemma EntryWithValue(key: string, value: string)
    requires '=' !in key
    ensures IsOptionArg("--" + key + "=" + value)
    ensures OptionEntry("--" + key + "=" + value) == (key, Text(value))
  {
    var p := "--" + key;
    var arg := p + "=" + value;
    assert arg[..2] == "--";
    assert '=' !in p by {
      forall i | 0 <= i < |p| ensures p[i] != '=' {
        if i >= 2 { assert p[i] == key[i - 2]; }
      }
    }
    assert arg == p + ['='] + value;
    FirstIndexAfter(p, '=', value);
    assert arg[2..|p|] == key;
    assert arg[|p| + 1..] == value;
  }

  /** `--key` alone is a flag. */
  lemma EntryWithoutValue(key: string)
    requires '=' !in key
    ensures IsOptionArg("--" + key)
    ensures OptionEntry("--" + key) == (key, Flag)
  {
    var arg := "--" + key;
    assert arg[..2] == "--";
    assert '=' !in arg by {
      forall i | 0 <= i < |arg| ensures arg[i] != '=' {
        if i >= 2 { assert arg[i] == key[i - 2]; }
      }
    }
    assert arg[2..] == key;
  }

  /** `--key=value` stores the text after the first '=' under `key`,
      replacing any earlier value: the last occurrence of a key wins. */
  lemma LastValueWins(argv: seq<string>, key: string, value: string)
    requires |argv| >= 3 && '=' !in key
    ensures Get(Options(argv + ["--" + key + "=" + value]), key) == Some(Text(value))
  {
    var arg := "--" + key + "=" + value;
    EntryWithValue(key, value);
    OptionsAppend(argv, arg);
    GetPutSame(Options(argv), key, Text(value));
  }

  /** A bare `--key` stores `true` under `key`. */
  lemma BareKeyIsFlag(argv: seq<string>, key: string)
    requires |argv| >= 3 && '=' !in key
    ensures Get(Options(argv + ["--" + key]), key) == Some(Flag)
  {
    var arg := "--" + key;
    EntryWithoutValue(key);
    OptionsAppend(argv, arg);
    GetPutSame(Options(argv), key, Flag);
  }

  /** An option leaves the values of all other keys as they were. */
  lemma OtherKeysKept(argv: seq<string>, arg: string, other: string)
    requires |argv| >= 3 && IsOptionArg(arg) && OptionEntry(arg).0 != other
    ensures Get(Options(argv + [arg]), other) == Get(Options(argv), other)
  {
    OptionsAppend(argv, arg);
    GetPutOther(Options(argv), OptionEntry(arg).0, OptionEntry(arg).1, other);
  }
}
