/** A reader for the commands the serialiser writes. It is not part of the
    wrapper; it is the partner against which rendering the tokens is proved
    to lose nothing: as long as option names hold no space or `=`, choices
    hold no double quote and the destination does not itself look like a
    flag, the flag tokens and the destination can be read back from the
    command. The options themselves cannot always be: different options can
    give the same tokens. */
module CommandParse {
  import opened Results
  import opened Strings
  import opened Command

  datatype Option<T> = None | Some(value: T)

  /** Length of the longest prefix of `s` with no character from `stops`. */
  function Span(s: string, stops: set<char>): (n: nat)
    ensures n <= |s|
    ensures forall k :: 0 <= k < n ==> s[k] !in stops
    ensures n < |s| ==> s[n] in stops
  {
    if s == [] || s[0] in stops then 0 else 1 + Span(s[1..], stops)
  }

  /** The characters that end a flag name. */
  const FlagStops: set<char> := {' ', '='}

  /** A reading with one more token in front. */
  function Prepend(t: Token, r: Option<(seq<Token>, string)>): Option<(seq<Token>, string)>
  {
    match r
    case None => None
    case Some((ts, destination)) => Some(([t] + ts, destination))
  }

  /** Reads the text after the binary path: a run of ` --flag` and
      ` --flag="choice"` tokens, then one space and the destination. */
  function ParseArgs(s: string): Option<(seq<Token>, string)>
    decreases |s|, 1
  {
    if s == [] || s[0] != ' ' then None else ParseWord(s[1..])
  }

  /** Reads what follows a space: a flag token and the rest, or, once the
      word does not start with `--`, the destination, which is everything
      left. */
  function ParseWord(rest: string): Option<(seq<Token>, string)>
    decreases |rest|, 0
  {
    if !StartsWith(rest, "--") then Some(([], rest))
    else
      var n := Span(rest, FlagStops);
      assert rest[0] == rest[..2][0] == '-';
      if n == |rest| then None
      else if rest[n] == ' ' then Prepend(Bare(rest[..n]), ParseArgs(rest[n..]))
      else ParseChoice(rest[..n], rest[n + 1..])
  }

  /** Reads the `"choice"` after a flag's `=`, then the rest of the command. */
  function ParseChoice(flag: string, after: string): Option<(seq<Token>, string)>
    decreases |after|, 1
  {
    if after == [] || after[0] != '"' then None
    else
      var body := after[1..];
      var m := Span(body, {'"'});
      if m == |body| then None
      else Prepend(Valued(flag, body[..m]), ParseArgs(body[m + 1..]))
  }

  /** Reads a whole command written for `binaryPath`. */
  function ParseCommand(binaryPath: string, command: string): Option<(seq<Token>, string)>
  {
    if StartsWith(command, binaryPath) then ParseArgs(command[|binaryPath|..]) else None
  }

  /** A token the reader can delimit: the flag starts with `--` and holds no
      space or `=`, the choice holds no double quote. */
  predicate Delimited(t: Token)
  {
    StartsWith(t.flag, "--") && ' ' !in t.flag && '=' !in t.flag &&
    (t.Valued? ==> '"' !in t.choice)
  }

  /** An option whose name holds no space or `=` and whose string or array
      choices hold no double quote. */
  predicate PlainOption(key: string, v: Value)
  {
    ' ' !in key && '=' !in key &&
    match v
    case Str(s) => '"' !in s
    case Arr(xs) => forall i :: 0 <= i < |xs| ==> '"' !in xs[i]
    case _ => true
  }

  /** Every option is plain. */
  predicate PlainOptions(opts: Options)
  {
    forall i :: 0 <= i < |opts| ==> PlainOption(opts[i].0, opts[i].1)
  }

  /** The span of `a + b` stops exactly where `a` ends when `a` holds no stop
      character and `b` starts with one. */
  lemma {:induction false} SpanAt(a: string, b: string, stops: set<char>)
    requires forall k :: 0 <= k < |a| ==> a[k] !in stops
    requires b != [] && b[0] in stops
    ensures Span(a + b, stops) == |a|
  {
    if a == [] {
      assert a + b == b;
    } else {
      assert (a + b)[0] == a[0];
      assert (a + b)[1..] == a[1..] + b;
      SpanAt(a[1..], b, stops);
    }
  }

  /** Rendered tokens followed by the destination start with a space. */
  lemma LeadingSpace(ts: seq<Token>, destination: string)
    ensures (Render(ts) + " " + destination)[0] == ' '
  {
    if ts != [] {
      assert (RenderToken(ts[0]) + Render(ts[1..]))[0] == RenderToken(ts[0])[0];
    }
  }

  /** After a space the reader looks at the next word. */
  lemma ReadAfterSpace(rest: string)
    ensures ParseArgs(" " + rest) == ParseWord(rest)
  {
    assert (" " + rest)[1..] == rest;
  }

  /** A delimited flag followed by a stop character is read whole. */
  lemma FlagWord(f: string, tail: string)
    requires Delimited(Bare(f))
    requires tail != [] && tail[0] in FlagStops
    ensures StartsWith(f + tail, "--")
    ensures Span(f + tail, FlagStops) == |f|
    ensures (f + tail)[..|f|] == f && (f + tail)[|f|..] == tail
  {
    assert (f + tail)[..2] == f[..2];
    assert forall k :: 0 <= k < |f| ==> f[k] !in FlagStops;
    SpanAt(f, tail, FlagStops);
  }

  /** A bare flag followed by more text reads as that flag in front of
      the reading of the rest. */
  lemma ParseBare(f: string, tail: string)
    requires Delimited(Bare(f))
    requires tail != [] && tail[0] == ' '
    ensures ParseArgs(RenderToken(Bare(f)) + tail) == Prepend(Bare(f), ParseArgs(tail))
  {
    assert RenderToken(Bare(f)) + tail == " " + (f + tail);
    ReadAfterSpace(f + tail);
    FlagWord(f, tail);
  }

  /** A quoted choice followed by more text reads as the valued token in
      front of the reading of the rest. */
  lemma ParseQuoted(f: string, c: string, tail: string)
    requires '"' !in c
    ensures ParseChoice(f, "\"" + c + "\"" + tail) == Prepend(Valued(f, c), ParseArgs(tail))
  {
    var body := c + ("\"" + tail);
    var after := "\"" + body;
    assert "\"" + c + "\"" + tail == after;
    assert after[1..] == body;
    assert forall k :: 0 <= k < |c| ==> c[k] !in {'"'};
    SpanAt(c, "\"" + tail, {'"'});
    assert body[..|c|] == c;
    assert body[|c| + 1..] == tail;
  }

  /** A delimited flag followed by `=` hands the rest to the choice reader. */
  lemma FlagThenChoice(f: string, after: string)
    requires Delimited(Bare(f))
    ensures ParseWord(f + ("=" + after)) == ParseChoice(f, after)
  {
    FlagWord(f, "=" + after);
    assert ("=" + after)[1..] == after;
    assert (f + ("=" + after))[|f| + 1..] == after;
  }

  /** A flag with a choice followed by more text reads as that token in
      front of the reading of the rest. */
  lemma ParseValued(f: string, c: string, tail: string)
    requires Delimited(Valued(f, c))
    ensures ParseArgs(RenderToken(Valued(f, c)) + tail) == Prepend(Valued(f, c), ParseArgs(tail))
  {
    var after := "\"" + c + "\"" + tail;
    assert RenderToken(Valued(f, c)) + tail == " " + (f + ("=" + after));
    ReadAfterSpace(f + ("=" + after));
    assert Delimited(Bare(f));
    FlagThenChoice(f, after);
    ParseQuoted(f, c, tail);
  }

  /** A delimited token followed by more text reads as that token in front
      of the reading of the rest. */
  lemma ParseToken(t: Token, tail: string)
    requires Delimited(t)
    requires tail != [] && tail[0] == ' '
    ensures ParseArgs(RenderToken(t) + tail) == Prepend(t, ParseArgs(tail))
  {
    if t.Bare? {
      ParseBare(t.flag, tail);
    } else {
      ParseValued(t.flag, t.choice, tail);
    }
  }

  /** Rendering a non-empty run splits off the first token. */
  lemma RenderFirst(ts: seq<Token>, destination: string)
    requires ts != []
    ensures Render(ts) + " " + destination == RenderToken(ts[0]) + (Render(ts[1..]) + " " + destination)
  {
  }

  /** The serialiser's output reads back as the tokens and the destination
      it was written from. */
  lemma {:induction false} ParseRender(ts: seq<Token>, destination: string)
    requires forall i :: 0 <= i < |ts| ==> Delimited(ts[i])
    requires !StartsWith(destination, "--")
    ensures ParseArgs(Render(ts) + " " + destination) == Some((ts, destination))
  {
    if ts == [] {
      var s := " " + destination;
      assert Render(ts) + " " + destination == s;
      assert s[1..] == destination;
    } else {
      var tail := Render(ts[1..]) + " " + destination;
      ParseRender(ts[1..], destination);
      LeadingSpace(ts[1..], destination);
      RenderFirst(ts, destination);
      ParseToken(ts[0], tail);
      assert [ts[0]] + ts[1..] == ts;
    }
  }

  /** Options the reader can delimit give tokens it can delimit. */
  lemma OptionTokensDelimited(key: string, v: Value)
    requires PlainOption(key, v)
    requires OptionTokens(key, v).Ok?
    ensures forall i :: 0 <= i < |OptionTokens(key, v).value| ==> Delimited(OptionTokens(key, v).value[i])
  {
    var f := FlagName(key);
    assert ' ' !in f && '=' !in f by {
      if f != key {
        assert f == "--" + key;
      }
    }
    if v.Str? && v.s != "" {
      SplitPiecesFrom(v.s, ',');
    }
  }

  /** The tokens of plain options are all delimited. */
  lemma {:induction false} TokensDelimited(opts: Options)
    requires PlainOptions(opts)
    requires Tokens(opts).Ok?
    ensures forall i :: 0 <= i < |Tokens(opts).value| ==> Delimited(Tokens(opts).value[i])
  {
    if opts != [] {
      var init, last := opts[..|opts| - 1], opts[|opts| - 1];
      assert forall k :: 0 <= k < |init| ==> init[k] == opts[k];
      TokensDelimited(init);
      OptionTokensDelimited(last.0, last.1);
    }
  }

  /** The whole command reads back as the tokens of the options and the
      destination: rendering the tokens loses nothing and adds nothing. */
  lemma {:induction false} CommandRoundTrip(binaryPath: string, opts: Options, destination: string)
    requires PlainOptions(opts)
    requires !StartsWith(destination, "--")
    requires Tokens(opts).Ok?
    ensures CommandLine(binaryPath, opts, destination).Ok?
    ensures ParseCommand(binaryPath, CommandLine(binaryPath, opts, destination).value)
      == Some((Tokens(opts).value, destination))
  {
    var args := Render(Tokens(opts).value) + " " + destination;
    CommandText(binaryPath, opts, destination);
    ReadArgs(opts, destination);
    StripPrefix(binaryPath, args);
  }

  /** A command that serialises is the binary path followed by the text
      the reader starts from. */
  lemma CommandText(binaryPath: string, opts: Options, destination: string)
    requires Tokens(opts).Ok?
    ensures CommandLine(binaryPath, opts, destination)
      == Ok(binaryPath + (Render(Tokens(opts).value) + " " + destination))
  {
    var ts := Tokens(opts).value;
    assert binaryPath + Render(ts) + " " + destination == binaryPath + (Render(ts) + " " + destination);
  }

  /** The text after the binary path reads back as the options' tokens and
      the destination. */
  lemma ReadArgs(opts: Options, destination: string)
    requires PlainOptions(opts)
    requires !StartsWith(destination, "--")
    requires Tokens(opts).Ok?
    ensures ParseArgs(Render(Tokens(opts).value) + " " + destination) == Some((Tokens(opts).value, destination))
  {
    TokensDelimited(opts);
    ParseRender(Tokens(opts).value, destination);
  }

  /** A command written for a binary path reads from just after that path. */
  lemma StripPrefix(binaryPath: string, args: string)
    ensures ParseCommand(binaryPath, binaryPath + args) == ParseArgs(args)
  {
    assert (binaryPath + args)[..|binaryPath|] == binaryPath;
    assert (binaryPath + args)[|binaryPath|..] == args;
  }
}
