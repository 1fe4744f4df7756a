# Command injection, vulnerable and hardened: a Dafny model

The system is two single-request PHP endpoints. Each reads the form field
`seconds` from a POST request and runs `sleep` through the shell.

- `vulnerable.php` checks only that the field is not empty in PHP's sense.
  It then appends the raw text to `sleep `, so anything the shell gives meaning
  to (`;`, `|`, `&&`, backticks, `$(…)`) runs as well.
- `safe.php` passes the field through a fixed chain of guards: `empty()`,
  `is_numeric()`, `intval()`, a bounds guard 0..30 and `escapeshellarg()`.
  Only then does it build `sleep '<N>'`.

Each endpoint is modelled as a pure function
`Handle(requestMethod, field) : Outcome`. An `Outcome` is either
`Error(message)` or `Run(command, requested)`: the command the shell would
run and the value echoed in the `requested` field of the success payload. The
request method and the field are parameters. An absent field is `None`, as
`?? ''` reads it. The PHP built-ins the guards rely on are written out as
Dafny functions:

- `Endpoint.Empty`: `empty()` on a string. It is true for `""` and `"0"` only.
- `PhpNumeric.Parse` / `IsNumeric`: PHP 8 numeric strings,
  `WS* [+-] (D+ [. D*] | . D+) [(e|E) [+-] D+] WS*`. WS is space, tab,
  newline, carriage return, vertical tab or form feed. The parse keeps every
  piece of the text in a `Numeral`, and `Render` gives the text back.
- `PhpNumeric.Intval`: the numeral's value truncated toward zero.
- `Decimal.IntToDecimal`: PHP's int-to-string conversion.
- `PosixShell.EscapeShellArg`: POSIX `escapeshellarg`. It wraps the text in
  single quotes and writes each `'` as `'\''`.
- `PosixShell.ReadWord`: how a POSIX shell reads one word. It handles single
  quotes, backslash escapes, line continuations and unquoted literal
  characters. It returns the
  argument's value, or None when the text is not guaranteed to be one such
  argument. The model uses it to state injection safety at the shell level.

Modules: `Wrappers` (Option), `Decimal`, `PhpNumeric`, `PosixShell`, `Endpoint`
(outcome, messages, `empty`, `??`), `Safe`, `Vulnerable`.

## Model

| member | source | states |
|---|---|---|
| `Decimal.NatToDecimal` | safe.php:35 | The decimal text of a non-negative int has at least one digit and only digits. It has no leading zero, and its digits read back as the number. |
| `Decimal.DecimalLength` | safe.php:29-35 | A number below 10^k has at most k digits, so an accepted 0..30 gives one or two. |
| `PhpNumeric.ParseRender` | safe.php:20 | Every well-formed numeral is numeric, and `is_numeric`'s parse gives that numeral back. |
| `PhpNumeric.ParseSound` | safe.php:20 | Whatever `is_numeric` accepts is well formed and is exactly the text of its numeral. |
| `PhpNumeric.NumericIffRendered` | safe.php:20 | `is_numeric(s)` holds exactly when `s` is the text of some well-formed numeral (both directions). |
| `PhpNumeric.NumericChars` | safe.php:20-23 | A numeric string holds only whitespace, digits, `+`, `-`, `.`, `e` and `E`. |
| `PhpNumeric.MagnitudeIsIntegerPart` | safe.php:26 | `intval`'s magnitude is the integer part of the text after the point moves by the exponent. It is 0 if the point moves in front of every digit, and zeros are padded if it moves past them. |
| `PhpNumeric.IntvalDropsFraction` | safe.php:26 | Without an exponent, `intval` is the signed value of the digits before the point: truncation toward zero. |
| `PhpNumeric.IntvalOfDecimal` | safe.php:26 | The decimal text of any int is numeric, and `intval` gives the int back. |
| `PosixShell.EscapeBody` | safe.php:35 | Escaping leaves text without single quotes unchanged. |
| `PosixShell.ReadWordEscapeShellArg` | safe.php:35 | Whatever the string, the shell reads `escapeshellarg`'s result as one word whose value is that string. |
| `PosixShell.ReadPlainWord` | vulnerable.php:23 | Take text without single quotes or backslashes. `ReadWord` gives it back unchanged, as one argument, exactly when it is non-empty, does not start with `#` or `~`, and every character is literal. Otherwise `ReadWord` gives None (both directions). Literal excludes blanks, operators, `$`, the backtick, `"`, NUL, and the glob and brace characters; `=`, `#` and `~` inside a word and non-ASCII letters are literal. |
| `PosixShell.ReadWordRejectsSpecial` | vulnerable.php:23 | Text without single quotes or backslashes is not one literal argument if it holds a blank, tab, newline, `;`, `&`, `\|`, `<`, `>`, `(`, `)`, a backtick, `"`, or a `$` that starts an expansion (followed by a letter, digit, `_`, `{`, `(` or one of `@*#?-$!`). |
| `Safe.ValidateAndBuild` | safe.php:20-38 | After the emptiness guard, an accepted value N is in 0..30, and the command is exactly `sleep '` N `'`. |
| `Safe.MethodGuard` | safe.php:54-55 | Any method other than POST gets "POST method required", and no command is built. |
| `Safe.RequiredGuard` | safe.php:12-17 | "Seconds parameter is required" comes exactly for a missing field, `""` and `"0"`. |
| `Safe.MetacharRejected` | safe.php:20-23 | Input holding a character no numeric string holds (`;`, `\|`, `&`, `$`, `(`, backtick, quote) gets "Invalid input: seconds must be a number" and no command. |
| `Safe.OutOfRangeExamples` | safe.php:29-32 | `"31"` and `"-1"` get "Seconds must be between 0 and 30". |
| `Safe.AcceptsThirty` | safe.php:29-38 | `"30"` runs `sleep '30'` and echoes 30. |
| `Safe.TruncatesThirtyPointNine` | safe.php:26-38 | `"30.9"` truncates to 30 and runs `sleep '30'`. |
| `Safe.TruncatesMinusHalf` | safe.php:26-38 | `"-0.5"` truncates toward zero to 0 and runs `sleep '0'`. |
| `Safe.GuardOrder` | safe.php:11-32 | A request fails exactly when one of the ordered guards (method, empty, numeric, bounds) fails. The message is that of the first failing guard. |
| `Safe.Accepted` | safe.php:29-50 | A request runs exactly when every guard passes. `requested` is then `intval` of the input, never the raw text, and the command is `sleep '` that value `'`. |
| `Safe.CommandCharacters` | safe.php:35-38 | Every command the guards build is `sleep '` followed by one or two digits and `'`. Those digits spell `requested`. |
| `Safe.CommandWords` | safe.php:35-38 | Every command the guards build is `sleep`, a blank, and one word the shell reads as the literal decimal of `requested`. |
| `Safe.RunsOnlyBuiltCommands` | safe.php:11-38 | The script and its corrected form run a command only for a POST. They run exactly what the guards build from the field, so the two lemmas above cover every command either runs. |
| `Safe.ZeroRefused` | safe.php:14-17 | `"0"` is numeric with `intval` 0, yet it is refused as missing, while `"00"`, `"0.0"` and `"-0"` run `sleep '0'`. |
| `Safe.IntendedAcceptsRange` | safe.php:14-32 | With the emptiness test read as "empty string", a request runs exactly when the input is numeric with `intval` in 0..30. The corrected handler agrees with the script on every field except `"0"`. |
| `Safe.IntendedRunsZero` | safe.php:14-38 | The corrected handler runs `sleep '0'` for `"0"`. |
| `Vulnerable.MethodGuard` | vulnerable.php:39-40 | Any method other than POST gets "POST method required", and no command is built. |
| `Vulnerable.RequiredGuard` | vulnerable.php:14-19 | "Seconds parameter is required" comes exactly for a missing field, `""` and `"0"`. |
| `Vulnerable.AcceptsEverythingElse` | vulnerable.php:21-23 | A command is built exactly for a POST whose field is not empty in PHP's sense. There is no other check. |
| `Vulnerable.VerbatimSuffix` | vulnerable.php:23-35 | The command is `sleep ` followed by the raw input, character for character. `requested` is the raw input unchanged. |
| `Vulnerable.MetacharactersSurvive` | vulnerable.php:23 | Every character of the input occurs in the command as often as in the input plus `sleep `. |
| `Vulnerable.ArgumentNotOneWord` | vulnerable.php:21-23 | Input without single quotes or backslashes runs if it holds a blank, an operator (`;`, `&`, `\|`, `<`, `>`, `(`, `)`), a backtick, `"`, or a `$` that starts an expansion. The shell then does not pass it to `sleep` as one literal argument. |
| `Vulnerable.ExploitExample` | vulnerable.php:8 | `"5; cat /etc/passwd"` runs `sleep 5; cat /etc/passwd`, and the appended text is not one literal word. |
| `Vulnerable.Contrast` | vulnerable.php:23 | Input holding a non-numeric character is refused as not a number by the hardened endpoint. The vulnerable endpoint runs it, with that character in the command. |

## Findings

| source | as written | input that shows it | evidently intended | confidence | as-written member | corrected member |
|---|---|---|---|---|---|---|
| safe.php:14 | `empty($seconds)` also holds for `"0"`, so `"0"` gets "Seconds parameter is required". The bounds guard (line 29) and its message admit 0, and `"00"`, `"0.0"` and `"-0"` all run `sleep '0'`. | `seconds=0` | Only a missing or empty field is refused as missing, and `"0"` runs `sleep '0'`. | medium, not executed | `Safe.ZeroRefused` | `Safe.IntendedAcceptsRange` |

`Safe.Handle` models the script as written. `Safe.HandleIntended` differs from it
only in the emptiness test. Both hand the field to the same
`Safe.ValidateAndBuild`. `Safe.RunsOnlyBuiltCommands` shows that every command
either of them runs is one that function built. The lemmas about that function
therefore hold for both: bounds (its ensures), only digits between the quotes
(`Safe.CommandCharacters`), and a single shell word (`Safe.CommandWords`).
`vulnerable.php:16` has the same `empty()` test.

## Left out

- `exec`, the shell's execution, `output` and `return_code` are not modelled. They come from an external process; the model stops at the command string.
- `microtime` and `elapsed` are not modelled: they are wall-clock time and floating point. So is the claim that a run takes about N seconds.
- `header`, `json_encode`, `echo`, `exit` and the superglobals are I/O. The method and the field are parameters, and the payload is the `Outcome` value.
- An array-valued field (`seconds[]=…`) is not modelled; the field is a string or absent.
- PhpNumeric.Intval: truncates the exact decimal value. PHP converts a string with a point or an exponent to a double first. So `"30.99999999999999999"` rounds to 31 in PHP and is refused, where the model gives 30. Likewise `"1e999"` becomes infinity, and PHP turns that into 0. PHP also saturates integers beyond 64 bits. None of this is modelled.
- PhpNumeric.Intval: is defined only on numeric strings. `intval` of other text (a leading-digits prefix, or 0) is never reached by `safe.php`.
- PhpNumeric.Parse: follows PHP 8, which admits trailing whitespace. PHP 7 refuses trailing whitespace; that version is not modelled.
- PosixShell.EscapeShellArg: covers only the POSIX form. Not modelled: the Windows form (double quotes), the error on NUL bytes, skipping invalid multibyte characters, and the length limit. None of these can occur for the decimal of an int.
- PosixShell.ReadWord: decodes neither double quotes nor expansions. It returns None for a word holding `"`, `$`, a backtick or a NUL byte. It also returns None for the glob and brace characters `*`, `?`, `[` and `{`, and for a word starting with `#` or `~` once leading line continuations are removed. So None means "not guaranteed to be passed as the literal text". The shell may still pass such text unchanged: a glob that matches no file, or a `$` that starts no expansion (`5$.` is kept as it is by dash and bash). A `Some` result is exact, and the hardened endpoint's lemmas rely only on that. The vulnerable endpoint's lemmas require `BreaksWord`: a special character other than `$`, or a `$` followed by the start of an expansion. The shell never reads either as itself outside quotes. Blanks that some locales add beyond space and tab are treated as literal characters.
- Vulnerable.Handle: a field holding a NUL byte still yields `Run`. PHP 8's `exec` refuses such a command with an error, and that error is not modelled.
