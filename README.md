# fetch wrapper: binary name resolution and command serialisation

The Node package wraps a prebuilt `fetch` executable, a tool that downloads
files from a GitHub repository at a given reference. At load time it picks the
release file that matches the host's operating system and CPU architecture.
For each call, `create_command` turns an options object and a download
destination into one shell command line for that executable.

This model covers those two pieces of `fetch.js`:

- **Platform** (`platform.dfy`) is the release table and the architecture
  table. `BinaryName` resolves the executable's file name as the original
  does: it looks the template up by platform, then replaces the first
  `%ARCH` with the architecture token. The resolution is proved equal to an
  independent naming scheme, `fetch_<os>_<token><extension>`.
- **Command** (`command.dfy`) gives the command line two ways:
  - as a specification, a sequence of flag tokens (`Tokens`) and their
    rendering (`CommandLine`);
  - as the imperative serialiser `CreateCommand`, which appends to a string
    option by option and choice by choice, with the inner loop in
    `AppendChoices`. It is proved to build exactly the specified string.
- **Strings** (`strings.dfy`) models the JavaScript string operations the
  code relies on: `startsWith`, `split` on one character, and `replace`
  with a string pattern. `Join` is not used by the code. It is there to
  state what `split` keeps: joining the pieces gives the string back.
- **CommandParse** (`command_parse.dfy`) is a reader for the serialised
  command. It is not part of the wrapper. It is the partner that shows
  rendering the tokens loses nothing: the flag tokens and the destination
  can be read back from the command. This holds as long as:
  - option names hold no space or `=`;
  - choices hold no double quote;
  - the destination does not itself start with `--`.
  The options themselves cannot always be read back, because different
  options can give the same tokens (see "## Left out").
- **Results** (`results.dfy`) holds the error values. They stand for the
  TypeErrors the original throws.

Option values are classified the way `create_command` treats them:

- A falsy value (`undefined`, `null`, `false`, `0`, the empty string) gives a
  bare ` --flag`.
- A non-empty string is split on commas. Empty pieces are kept, as
  `split(',')` keeps them.
- An array is used element by element and is not split. An empty array
  contributes nothing.
- Any other truthy value (`true`, a number, an object) makes `.split` throw.
  The model returns `Err(NotSplittable(key))` for the first such key in
  iteration order.

Two consequences of the code are worth spelling out:

- A bare `--help` needs a falsy value, such as `{help: null}` or
  `{help: ''}` (fetch.js:30-32). `{help: true}` does not give `--help`:
  `true` is truthy and not an array, so `true.split(',')` throws
  (fetch.js:36-37). The model yields `Err(NotSplittable("help"))`.
- An architecture Node reports that is missing from `ARCH_MAP` is not an
  error. The lookup is `undefined`, and `replace` substitutes the text
  `"undefined"` (fetch.js:17). The model yields
  `fetch_<os>_undefined<extension>`. Only an unknown platform fails,
  because `undefined.replace` throws; the model yields
  `Err(UnsupportedPlatform(platform))`.

## Model

| member | source | states |
|---|---|---|
| Platform.ArchToken | fetch.js:13-17 | A listed architecture maps to its release token (`x64` to `amd64`, `ia32` to `386`). Any other architecture Node reports gives the text "undefined". The token never contains `%`. |
| Platform.BinaryName | fetch.js:7-17 | Resolution succeeds exactly for darwin, freebsd, linux and win32, and then gives `fetch_<os>_<arch token><extension>`, with no `%` left in the name. Any other platform gives `UnsupportedPlatform`. |
| Platform.TemplateShape | fetch.js:7-12 | Every supported platform's template is `fetch_<os>_` followed by `%ARCH` and the extension, and the prefix holds no `%`. |
| Platform.BinaryNameUnknownArch | fetch.js:13-17 | An architecture Node reports that is missing from the table does not fail: the name carries "undefined" in place of the token. |
| Platform.BinaryNameLinuxBuild | fetch.js:7-17 | Linux and FreeBSD both resolve to the Linux build, `fetch_linux_<token>`, with no extension. |
| Platform.BinaryNameDarwin | fetch.js:7-17 | macOS resolves to `fetch_darwin_<token>`, with no extension. |
| Platform.BinaryNameWindows | fetch.js:7-17 | Windows resolves to `fetch_windows_<token>.exe`, whatever the architecture. |
| Platform.SubstituteArch | fetch.js:17 | Replacing `%ARCH` in `prefix + "%ARCH" + suffix`, when the prefix holds no `%`, puts the token exactly between prefix and suffix. |
| Strings.ReplaceFirst | fetch.js:17 | `replace` with a string pattern returns either the input unchanged or the input with exactly one occurrence traded for the replacement (by length). Where the change happens is stated by ReplaceFirstAt and ReplaceFirstAbsent. |
| Strings.ReplaceFirstAt | fetch.js:17 | `replace` with a string pattern changes only the first occurrence: the text before it is kept, the pattern is swapped for the replacement, and the text after it is kept. |
| Strings.ReplaceFirstAbsent | fetch.js:17 | When the pattern does not occur, `replace` returns the string unchanged. |
| Strings.Split | fetch.js:37 | `split(',')` gives one more piece than there are commas, counting empty pieces. What the pieces hold is stated by SplitPiecesFree, SplitPiecesFrom, JoinSplit and SplitJoin. |
| Strings.SplitPiecesFree | fetch.js:37 | No piece of a split contains the separator. |
| Strings.SplitPiecesFrom | fetch.js:37 | Every character of every piece comes from the input. |
| Strings.JoinSplit | fetch.js:37 | Joining the pieces with the separator restores the input string. |
| Strings.SplitJoin | fetch.js:37 | Splitting a join of separator-free pieces gives the pieces back. |
| Strings.StartsWith | fetch.js:27 | `s.startsWith(p)` holds exactly when `s` is `p` followed by the rest of `s`. |
| Command.FlagName | fetch.js:27 | The flag always starts with `--`, and it is either the key itself or `--` followed by the key. |
| Command.FlagNameIdempotent | fetch.js:27 | A key that already starts with `--` is kept as it is, so normalising twice is the same as normalising once. |
| Command.FlagNameNoDoublePrefix | fetch.js:27 | The prefix is never doubled: a flag starts with `----` exactly when its key did. |
| Command.OptionTokens | fetch.js:27-42 | One option's tokens: it fails exactly when the value is a truthy non-string, non-array, and the error names its key. A falsy value gives the one bare flag. Any other truthy value gives only valued tokens under the option's flag. |
| Command.FalsyIsBareFlag | fetch.js:30-32 | A falsy value, the empty string included, renders as exactly a space and the flag, with no `=` or quotes. |
| Command.StringSplitsOnCommas | fetch.js:36-42 | A non-empty string gives one valued token per comma-separated piece, in order. There are as many tokens as commas plus one, no choice holds a comma, and the choices joined with commas give the string back. |
| Command.ArrayIsNotSplit | fetch.js:36-42 | An array gives one valued token per element, in order and unsplit. An empty array contributes no text at all. |
| Command.Tokens | fetch.js:23-44 | Serialising all options succeeds exactly when no value is a truthy non-string, non-array. Order and the first error are stated by TokensConcat, TokensSingle and TokensFirstError. |
| Command.TokensConcat | fetch.js:23-44 | Options are serialised one after another: serialising two runs of options in a row is serialising each run, and the first error wins. |
| Command.TokensSingle | fetch.js:23-44 | A single option serialises to exactly the tokens its own value gives. |
| Command.TokensFirstError | fetch.js:23-38 | A failing serialisation reports the key of the first such value in iteration order. |
| Command.StopsAtNonString | fetch.js:23-38 | A value that cannot be split, after a prefix that serialised cleanly, makes the whole command fail with that value's key. |
| Command.CommandLine | fetch.js:21-46 | The command fails exactly when the tokens do, with their error. A successful command starts with the binary path and ends with one space and the destination. |
| Command.EmptyArrayLeavesNoTrace | fetch.js:36-42 | An option whose value is an empty array gives the same command as no option at all: the loop at fetch.js:39 never runs, so the key leaves no trace. |
| Command.CommaStringIsArray | fetch.js:36-42 | A string `a,b` and the array `[a, b]` give the same tokens when neither piece holds a comma. |
| Command.PrefixedKeySameTokens | fetch.js:27 | A key and the same key written with `--` in front give the same tokens for any value that can be split. |
| Command.NoOptions | fetch.js:22-45 | With no options the command is the binary path, one space and the destination. |
| Command.CreateCommand | fetch.js:21-46 | The appending loop returns exactly `CommandLine`: the binary path, the rendered tokens of every option in order, one space and the destination. It fails with the first unsplittable key. |
| Command.OptionStep | fetch.js:23-43 | Each pass of the outer loop keeps the invariant: the command equals the binary path plus the rendering of the tokens of the options handled so far. |
| Command.AppendChoices | fetch.js:39-42 | The inner loop appends ` --flag="choice"` once per choice, in order, and nothing else. |
| CommandParse.ParseRender | fetch.js:30-45 | The rendered tokens followed by a space and the destination read back as exactly those tokens and that destination. This needs delimited tokens and a destination not starting with `--`. |
| CommandParse.CommandRoundTrip | fetch.js:21-46 | For plain options that serialise without error, the command succeeds and reads back as exactly their tokens and the destination. No token, choice or boundary is lost or invented in rendering. |
| CommandParse.TokensDelimited | fetch.js:27-41 | Plain options, with no space or `=` in names and no double quote in choices, give only tokens the reader can delimit. |

## Left out

- `fetch` and `fetchSync` (fetch.js:49-65) run the command in a child process and pipe its output. That is process I/O, so it is not modelled.
- `BINARY_PATH` (fetch.js:18) joins the package directory with the binary name through `path.join`, which depends on the file system layout. The binary path is a parameter of `CommandLine` and `CreateCommand`.
- `process.platform` and `process.arch` are read from the running process. They are parameters of `BinaryName` here.
- downloadBin.js, the install-time download of the release, is not part of this model.
- The `hasOwnProperty` filter (fetch.js:24-26) is left out. The options are given as a sequence of own keys in iteration order, so inherited keys never appear.
- The filter can also throw, and the model does not capture that: `options.hasOwnProperty(key)` raises a TypeError at fetch.js:24, on the first key, when an own key `hasOwnProperty` holds a non-function (`{hasOwnProperty: null}`) or when the options object has a null prototype and at least one key.
- Platform.ArchToken: architecture names that are members of `Object.prototype` (`__proto__`, `toString`, `constructor`, `valueOf`, `hasOwnProperty`) would find an inherited value in `ARCH_MAP` and give another name or throw. Those names are not modelled, because `process.arch` never takes them.
- Strings.ReplaceFirst: `$` patterns in the replacement string are not modelled. The architecture tokens hold no `$`, so they cannot arise.
- Shell interpretation is left out. The command is a plain string, and nothing is quoted or escaped except the literal double quotes around choices.
- CommandParse.CommandRoundTrip recovers the tokens, not the options. `Tokens` itself forgets:
  - the key of an empty array (EmptyArrayLeavesNoTrace);
  - whether a bare flag came from a falsy value or the empty string;
  - whether valued tokens came from a comma-separated string or an array of its pieces (CommaStringIsArray);
  - whether a key was written with its `--` prefix (PrefixedKeySameTokens).
- CommandParse.CommandRoundTrip only claims the round trip for plain options and a destination not starting with `--`. With a double quote in a choice, a space or `=` in a name, or a flag-like destination, the command is genuinely ambiguous, because the original does no escaping.
- Command.Value: array elements are modelled by their string forms. At fetch.js:41 JavaScript converts each element by string concatenation, so `null` becomes "null", a hole becomes "undefined" and a nested array becomes its comma-joined text; the model takes those texts as given. A Symbol element makes that concatenation throw a TypeError, which the model does not express.
- Command.Value classifies JavaScript values into falsy, string, array and other truthy values. Objects with their own `split` method are treated as unsplittable, which is an approximation.
