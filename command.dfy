/** The wrapper's command-line serialiser: an ordered set of options and a
    download destination become one shell command string for the prebuilt
    binary. The string is specified by the sequence of flag tokens it
    spells out; `CreateCommand` builds it by appending, as the original does. */
module Command {
  import opened Results
  import opened Strings

  /** An option value, classified the way the serialiser treats it. */
  datatype Value =
    | Falsy                // undefined, null, false, 0, NaN
    | Str(s: string)       // a string; the empty string is falsy too
    | Arr(xs: seq<string>) // an array of choices; truthy even when empty
    | NonString            // any other truthy value: true, a non-zero number, an object

  /** The options in the object's own-key iteration order. */
  type Options = seq<(string, Value)>

  /** JavaScript truthiness of an option value. */
  predicate Truthy(v: Value)
  {
    match v
    case Falsy => false
    case Str(s) => s != ""
    case Arr(_) => true
    case NonString => true
  }

  /** The option name with the double-dash prefix added unless present. */
  function FlagName(key: string): (flag: string)
    ensures StartsWith(flag, "--")
    ensures flag == key || flag == "--" + key
  {
    if StartsWith(key, "--") then key else "--" + key
  }

  /** One flag occurrence on the command line. */
  datatype Token = Bare(flag: string) | Valued(flag: string, choice: string)

  /** A token as the serialiser writes it: a space, the flag, and for a
      choice `="choice"` with literal quotes and no escaping. */
  function RenderToken(t: Token): string
  {
    match t
    case Bare(f) => " " + f
    case Valued(f, c) => " " + f + "=\"" + c + "\""
  }

  function Render(ts: seq<Token>): string
  {
    if ts == [] then "" else RenderToken(ts[0]) + Render(ts[1..])
  }

  /** One valued token per choice, in order. */
  function ValuedTokens(flag: string, choices: seq<string>): seq<Token>
  {
    seq(|choices|, i requires 0 <= i < |choices| => Valued(flag, choices[i]))
  }

  /** The choices written for a run of valued tokens. */
  function Choices(ts: seq<Token>): seq<string>
    requires forall i :: 0 <= i < |ts| ==> ts[i].Valued?
  {
    seq(|ts|, i requires 0 <= i < |ts| => ts[i].choice)
  }

  /** The tokens one option contributes, or the TypeError its value raises:
      a falsy value gives the bare flag, a string or an array gives valued
      tokens under the flag, and only another truthy value fails. */
  function OptionTokens(key: string, v: Value): (r: Result<seq<Token>>)
    ensures r.Err? <==> v.NonString?
    ensures r.Err? ==> r.error == NotSplittable(key)
    ensures !Truthy(v) ==> r == Ok([Bare(FlagName(key))])
    ensures Truthy(v) && r.Ok? ==>
      forall i :: 0 <= i < |r.value| ==> r.value[i].Valued? && r.value[i].flag == FlagName(key)
  {
    var flag := FlagName(key);
    match v
    case Falsy => Ok([Bare(flag)])
    case Str(s) => if s == "" then Ok([Bare(flag)]) else Ok(ValuedTokens(flag, Split(s, ',')))
    case Arr(xs) => Ok(ValuedTokens(flag, xs))
    case NonString => Err(NotSplittable(key))
  }

  /** Sequencing of two serialisation steps: the first error wins. */
  function Then(first: Result<seq<Token>>, second: Result<seq<Token>>): Result<seq<Token>>
  {
    match first
    case Err(e) => Err(e)
    case Ok(ts) =>
      match second
      case Err(e) => Err(e)
      case Ok(more) => Ok(ts + more)
  }

  /** The tokens of all options in order; the first option whose value
      cannot be split stops the serialisation, so it succeeds exactly when
      every value can be split. */
  function Tokens(opts: Options): (r: Result<seq<Token>>)
    ensures r.Ok? <==> AllSplittable(opts)
  {
    if opts == [] then Ok([])
    else
      var init, last := opts[..|opts| - 1], opts[|opts| - 1];
      assert forall k :: 0 <= k < |init| ==> init[k] == opts[k];
      Then(Tokens(init), OptionTokens(last.0, last.1))
  }

  /** No value is a truthy non-string, non-array. */
  predicate AllSplittable(opts: Options)
  {
    forall i :: 0 <= i < |opts| ==> !opts[i].1.NonString?
  }

  /** The command: binary path, the rendered options, one space, the
      destination path unquoted. It fails exactly when the tokens do, with
      their error; a command starts with the binary path and ends with one
      space and the destination. */
  function CommandLine(binaryPath: string, opts: Options, destination: string): (r: Result<string>)
    ensures r.Ok? <==> Tokens(opts).Ok?
    ensures r.Err? ==> r.error == Tokens(opts).error
    ensures r.Ok? ==> StartsWith(r.value, binaryPath) && EndsWith(r.value, " " + destination)
  {
    match Tokens(opts)
    case Err(e) => Err(e)
    case Ok(ts) =>
      Framed(binaryPath, Render(ts), destination);
      Ok(binaryPath + Render(ts) + " " + destination)
  }

  /** `i` is the first option whose value is a truthy non-string, non-array. */
  predicate FirstNonString(opts: Options, i: int)
  {
    0 <= i < |opts| && opts[i].1.NonString? &&
    forall j :: 0 <= j < i ==> !opts[j].1.NonString?
  }

  // Rendering

  lemma {:induction false} RenderConcat(a: seq<Token>, b: seq<Token>)
    ensures Render(a + b) == Render(a) + Render(b)
  {
    if a == [] {
      assert a + b == b;
    } else {
      assert (a + b)[0] == a[0];
      assert (a + b)[1..] == a[1..] + b;
      RenderConcat(a[1..], b);
    }
  }

  lemma RenderOne(t: Token)
    ensures Render([t]) == RenderToken(t)
  {
    assert [t][1..] == [];
  }

  // Serialisation of the option sequence

  /** One more option extends the tokens of the options before it. */
  lemma {:induction false} TokensStep(opts: Options, i: nat, ts: seq<Token>, more: seq<Token>)
    requires i < |opts|
    requires Tokens(opts[..i]) == Ok(ts)
    requires OptionTokens(opts[i].0, opts[i].1) == Ok(more)
    ensures Tokens(opts[..i + 1]) == Ok(ts + more)
  {
    assert opts[..i + 1][..i] == opts[..i];
  }

  lemma ThenAssociative(x: Result<seq<Token>>, y: Result<seq<Token>>, z: Result<seq<Token>>)
    ensures Then(Then(x, y), z) == Then(x, Then(y, z))
  {
    if x.Ok? && y.Ok? && z.Ok? {
      assert (x.value + y.value) + z.value == x.value + (y.value + z.value);
    }
  }

  /** Options are serialised one after another: serialising a concatenation
      is serialising each part, the first error winning. */
  lemma {:induction false} TokensConcat(a: Options, b: Options)
    ensures Tokens(a + b) == Then(Tokens(a), Tokens(b))
    decreases |b|
  {
    if b == [] {
      assert a + b == a;
      if Tokens(a).Ok? {
        assert Tokens(a).value + [] == Tokens(a).value;
      }
    } else {
      var b', last := b[..|b| - 1], b[|b| - 1];
      assert (a + b)[..|a + b| - 1] == a + b';
      assert (a + b)[|a + b| - 1] == last;
      TokensConcat(a, b');
      ThenAssociative(Tokens(a), Tokens(b'), OptionTokens(last.0, last.1));
    }
  }

  /** A single option is serialised to exactly the tokens its value gives. */
  lemma TokensSingle(key: string, v: Value)
    ensures Tokens([(key, v)]) == OptionTokens(key, v)
  {
    assert [(key, v)][..0] == [];
    if OptionTokens(key, v).Ok? {
      assert [] + OptionTokens(key, v).value == OptionTokens(key, v).value;
    }
  }

  /** A failing serialisation reports the key of the first such value. */
  lemma {:induction false} TokensFirstError(opts: Options, i: nat)
    requires FirstNonString(opts, i)
    ensures Tokens(opts) == Err(NotSplittable(opts[i].0))
  {
    var before, rest := opts[..i], opts[i + 1..];
    assert opts == before + ([opts[i]] + rest);
    assert forall k :: 0 <= k < |before| ==> before[k] == opts[k];
    assert AllSplittable(before);
    TokensConcat(before, [opts[i]] + rest);
    TokensConcat([opts[i]], rest);
    TokensSingle(opts[i].0, opts[i].1);
  }

  // What each kind of value contributes

  /** A falsy value (absent, null, empty string) is a bare flag: exactly a
      space and the flag, with no `=` and no quotes. */
  lemma FalsyIsBareFlag(key: string, v: Value)
    requires !Truthy(v)
    ensures Render(OptionTokens(key, v).value) == " " + FlagName(key)
  {
    RenderOne(Bare(FlagName(key)));
  }

  /** A non-empty string gives one valued token per comma-separated piece,
      in order: one more than it has commas; the choices carry no comma and
      joined with commas give the string back. */
  lemma StringSplitsOnCommas(key: string, s: string)
    requires s != ""
    ensures OptionTokens(key, Str(s)).Ok?
    ensures var ts := OptionTokens(key, Str(s)).value;
      && |ts| == Count(s, ',') + 1
      && (forall i :: 0 <= i < |ts| ==> ts[i].Valued? && ts[i].flag == FlagName(key) && ',' !in ts[i].choice)
      && Join(Choices(ts), ',') == s
  {
    var ts := OptionTokens(key, Str(s)).value;
    SplitPiecesFree(s, ',');
    JoinSplit(s, ',');
    assert Choices(ts) == Split(s, ',');
  }

  /** An array gives one valued token per element, in order, each element
      used as it is (a comma inside it is not split); an empty array
      contributes nothing at all. */
  lemma ArrayIsNotSplit(key: string, xs: seq<string>)
    ensures OptionTokens(key, Arr(xs)).Ok?
    ensures var ts := OptionTokens(key, Arr(xs)).value;
      && |ts| == |xs|
      && (forall i :: 0 <= i < |ts| ==> ts[i] == Valued(FlagName(key), xs[i]))
      && Choices(ts) == xs
    ensures xs == [] ==> Render(OptionTokens(key, Arr(xs)).value) == ""
  {
  }

  // Option names

  /** A name that already carries the prefix is kept; normalising twice is
      normalising once. */
  lemma FlagNameIdempotent(key: string)
    ensures FlagName(FlagName(key)) == FlagName(key)
    ensures StartsWith(key, "--") ==> FlagName(key) == key
  {
  }

  /** The prefix is never doubled: a normalised name starts with `----`
      only when the given name already did. */
  lemma FlagNameNoDoublePrefix(key: string)
    ensures StartsWith(FlagName(key), "----") <==> StartsWith(key, "----")
  {
    if !StartsWith(key, "--") {
      var f := "--" + key;
      if |f| >= 4 {
        assert f[..4] == "--" + key[..2];
      }
    }
    if |key| >= 4 {
      assert key[..2] == key[..4][..2];
    }
  }

  // The whole command

  /** The command does not determine the options: an empty array
      contributes no token, so its key leaves no trace. */
  lemma EmptyArrayLeavesNoTrace(binaryPath: string, key: string, destination: string)
    ensures CommandLine(binaryPath, [(key, Arr([]))], destination) == CommandLine(binaryPath, [], destination)
  {
    TokensSingle(key, Arr([]));
  }

  /** A comma-separated string and the array of its pieces serialise alike. */
  lemma CommaStringIsArray(key: string, a: string, b: string)
    requires ',' !in a && ',' !in b
    ensures Tokens([(key, Str(a + "," + b))]) == Tokens([(key, Arr([a, b]))])
  {
    TokensSingle(key, Str(a + "," + b));
    TokensSingle(key, Arr([a, b]));
    SplitJoin([a, b], ',');
    assert Join([a, b], ',') == a + "," + b;
  }

  /** A key and the same key with the prefix already written give the same
      flag, whatever the value, as long as the value can be split. */
  lemma PrefixedKeySameTokens(key: string, v: Value)
    requires !StartsWith(key, "--")
    requires !v.NonString?
    ensures Tokens([("--" + key, v)]) == Tokens([(key, v)])
  {
    TokensSingle(key, v);
    TokensSingle("--" + key, v);
    assert ("--" + key)[..2] == "--";
  }

  /** With no options the command is the binary path, a space and the
      destination. */
  lemma NoOptions(binaryPath: string, destination: string)
    ensures CommandLine(binaryPath, [], destination) == Ok(binaryPath + " " + destination)
  {
    assert binaryPath + Render([]) == binaryPath;
  }

  // The imperative serialiser

  /** Builds the command string by appending to it, option by option and
      choice by choice. */
  method CreateCommand(binaryPath: string, options: Options, localDownloadPath: string)
    returns (r: Result<string>)
    ensures r == CommandLine(binaryPath, options, localDownloadPath)
  {
    var command := binaryPath;
    ghost var done: seq<Token> := [];
    var i := 0;
    assert options[..0] == [];
    while i < |options|
      invariant 0 <= i <= |options|
      invariant Tokens(options[..i]) == Ok(done)
      invariant command == binaryPath + Render(done)
    {
      var (key, value) := options[i];
      var option := FlagName(key);
      ghost var added: seq<Token>;
      ghost var previous := command;
      if !Truthy(value) {
        command := command + (" " + option);
        added := [Bare(option)];
        FalsyIsBareFlag(key, value);
      } else {
        if value.NonString? {
          StopsAtNonString(binaryPath, options, localDownloadPath, i, done);
          return Err(NotSplittable(key));
        }
        var choices := if value.Str? then Split(value.s, ',') else value.xs;
        added := ValuedTokens(option, choices);
        command := AppendChoices(command, option, choices);
      }
      OptionStep(binaryPath, options, i, done, added, previous, command);
      done := done + added;
      i := i + 1;
    }
    assert options[..i] == options;
    r := Ok(command + " " + localDownloadPath);
  }

  /** The loop step of `CreateCommand`: appending the text of one option's
      tokens keeps the command equal to the rendering of the tokens so far. */
  lemma {:induction false} OptionStep(binaryPath: string, opts: Options, i: nat, done: seq<Token>, added: seq<Token>,
                   previous: string, command: string)
    requires i < |opts|
    requires Tokens(opts[..i]) == Ok(done)
    requires previous == binaryPath + Render(done)
    requires OptionTokens(opts[i].0, opts[i].1) == Ok(added)
    requires command == previous + Render(added)
    ensures Tokens(opts[..i + 1]) == Ok(done + added)
    ensures command == binaryPath + Render(done + added)
  {
    TokensStep(opts, i, done, added);
    ExtendRendered(binaryPath, done, added);
  }

  /** A truthy non-string, non-array value after a clean prefix stops the
      serialisation with its key. */
  lemma {:induction false} StopsAtNonString(binaryPath: string, opts: Options, destination: string, i: nat, done: seq<Token>)
    requires i < |opts|
    requires Tokens(opts[..i]) == Ok(done)
    requires opts[i].1.NonString?
    ensures CommandLine(binaryPath, opts, destination) == Err(NotSplittable(opts[i].0))
  {
    assert AllSplittable(opts[..i]);
    assert forall k :: 0 <= k < i ==> opts[..i][k] == opts[k];
    TokensFirstError(opts, i);
  }

  /** The inner loop: one ` --flag="choice"` per choice, in order, appended
      to the command. */
  method AppendChoices(command: string, option: string, choices: seq<string>) returns (extended: string)
    ensures extended == command + Render(ValuedTokens(option, choices))
  {
    extended := command;
    var j := 0;
    assert ValuedTokens(option, choices[..0]) == [];
    while j < |choices|
      invariant 0 <= j <= |choices|
      invariant extended == command + Render(ValuedTokens(option, choices[..j]))
    {
      var choice := choices[j];
      AppendChoiceStep(command, option, choices, j);
      extended := extended + (" " + option + "=\"" + choice + "\"");
      j := j + 1;
    }
    assert choices[..j] == choices;
  }

  /** Rendering `added` after `done` extends a command by exactly the text of `added`. */
  lemma ExtendRendered(binaryPath: string, done: seq<Token>, added: seq<Token>)
    ensures binaryPath + Render(done + added) == (binaryPath + Render(done)) + Render(added)
  {
    RenderConcat(done, added);
  }

  /** Rendering one more choice appends its valued token's text. */
  lemma AppendChoiceStep(command: string, option: string, choices: seq<string>, j: nat)
    requires j < |choices|
    ensures command + Render(ValuedTokens(option, choices[..j + 1]))
      == (command + Render(ValuedTokens(option, choices[..j]))) + (" " + option + "=\"" + choices[j] + "\"")
  {
    var emitted := ValuedTokens(option, choices[..j]);
    assert ValuedTokens(option, choices[..j + 1]) == emitted + [Valued(option, choices[j])];
    RenderConcat(emitted, [Valued(option, choices[j])]);
    RenderOne(Valued(option, choices[j]));
  }
}
