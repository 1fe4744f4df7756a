/** POSIX shell quoting: PHP's `escapeshellarg` on a POSIX system, and how a
    POSIX shell reads one word back (single quotes, backslash escapes and
    unquoted literal characters). A word that `ReadWord` accepts is read by
    the shell as exactly one argument, with the value it returns. */
module PosixShell {
  import opened Wrappers

  /** Characters the shell gives meaning to outside quotes: blanks and
      newlines end a word; `;`, `&`, `|`, `<`, `>`, `(` and `)` are operators;
      the backtick starts a command substitution and `$` may start an
      expansion (see `BreaksWord`); the three quoting characters change how
      the rest of the word is read. */
  predicate IsShellSpecial(c: char) {
    c == ' ' || c == '\t' || c == '\n' ||
    c == ';' || c == '&' || c == '|' || c == '<' || c == '>' || c == '(' || c == ')' ||
    c == '$' || c == '`' || c == '"' || c == '\'' || c == '\\'
  }

  /** Characters that may expand to something else depending on the files
      present (`*`, `?`, `[`) or, in shells such as bash, by brace expansion
      (`{`): not special, but not guaranteed to be read literally either. */
  predicate MayExpand(c: char) {
    c == '*' || c == '?' || c == '[' || c == '{'
  }

  /** Characters the shell reads as themselves, unquoted, inside a word. A
      NUL byte is none of them: the command reaches the shell as a C string,
      which ends at the first NUL. */
  predicate IsLiteral(c: char) {
    !IsShellSpecial(c) && !MayExpand(c) && c != 0 as char
  }

  /** Characters that, right after an unquoted `$`, start a parameter
      expansion, a command substitution or an arithmetic expansion. */
  predicate StartsExpansion(c: char) {
    ('a' <= c <= 'z') || ('A' <= c <= 'Z') || ('0' <= c <= '9') || c == '_' ||
    c == '@' || c == '*' || c == '#' || c == '?' || c == '-' || c == '$' || c == '!' ||
    c == '{' || c == '('
  }

  /** Position `i` of `w` holds a character the shell never reads as itself
      outside quotes: a special character other than `$`, or a `$` that
      starts an expansion. */
  predicate BreaksWord(w: string, i: nat)
    requires i < |w|
  {
    IsShellSpecial(w[i]) && (w[i] == '$' ==> i + 1 < |w| && StartsExpansion(w[i + 1]))
  }

  /** The inside of the quoted argument: each single quote becomes `'\''`
      (close the quote, an escaped quote, reopen the quote). */
  function EscapeBody(s: string): (r: string)
    ensures (forall i :: 0 <= i < |s| ==> s[i] != '\'') ==> r == s
  {
    if s == [] then []
    else (if s[0] == '\'' then "'\\''" else [s[0]]) + EscapeBody(s[1..])
  }

  /** `escapeshellarg` on a POSIX system. */
  function EscapeShellArg(s: string): string {
    "'" + EscapeBody(s) + "'"
  }

  function Prepend(c: char, o: Option<string>): Option<string> {
    if o.Some? then Some([c] + o.value) else None
  }

  /** The rest of a word after quote removal, or None when it holds an
      unquoted special or possibly expanding character, an unterminated
      quote or a trailing backslash. `inQuote` says whether a single quote is
      open. */
  function Unquote(w: string, inQuote: bool): Option<string>
    decreases |w|
  {
    if w == [] then
      if inQuote then None else Some([])
    else if inQuote then
      if w[0] == '\'' then Unquote(w[1..], false) else Prepend(w[0], Unquote(w[1..], true))
    else if w[0] == '\'' then
      Unquote(w[1..], true)
    else if w[0] == '\\' then
      if |w| == 1 then None
      else if w[1] == '\n' then Unquote(w[2..], false)   // line continuation
      else Prepend(w[1], Unquote(w[2..], false))
    else if IsLiteral(w[0]) then
      Prepend(w[0], Unquote(w[1..], false))
    else
      None
  }

  /** The single argument the shell reads from the text `w`, or None. A
      line continuation (backslash, newline) is removed before the word
      starts; then an empty text gives no argument at all, a `#` at the start
      of a word begins a comment and a `~` there is expanded to a home
      directory. */
  function ReadWord(w: string): Option<string>
    decreases |w|
  {
    if |w| >= 2 && w[0] == '\\' && w[1] == '\n' then ReadWord(w[2..])
    else if w == [] || w[0] == '#' || w[0] == '~' then None
    else Unquote(w, false)
  }

  /** Continuations in front of a word change nothing: what follows them is
      read as if they were absent, so they cannot hide an empty word, a
      comment or a tilde. */
  lemma LeadingContinuation(w: string)
    ensures ReadWord("\\\n" + w) == ReadWord(w)
    ensures ReadWord("\\\n") == None && ReadWord("\\\n#x") == None && ReadWord("\\\n~") == None
  {
    assert ("\\\n" + w)[2..] == w;
    assert "\\\n#x"[2..] == "#x";
    assert "\\\n~"[2..] == "~";
  }

  lemma {:induction false} UnquoteEscapeBody(s: string)
    ensures Unquote(EscapeBody(s) + "'", true) == Some(s)
    decreases |s|
  {
    if s == [] {
      assert EscapeBody(s) + "'" == "'";
    } else if s[0] == '\'' {
      var rest := EscapeBody(s[1..]) + "'";
      var w := EscapeBody(s) + "'";
      assert w == "'\\''" + rest;
      assert w[1..] == "\\''" + rest;
      assert w[1..][2..] == "'" + rest;
      assert ("'" + rest)[1..] == rest;
      UnquoteEscapeBody(s[1..]);
      assert Unquote("'" + rest, false) == Some(s[1..]);
      assert Unquote(w[1..], false) == Prepend('\'', Some(s[1..]));
      assert [s[0]] + s[1..] == s;
    } else {
      var rest := EscapeBody(s[1..]) + "'";
      var w := EscapeBody(s) + "'";
      assert w == [s[0]] + rest;
      assert w[1..] == rest;
      UnquoteEscapeBody(s[1..]);
      assert [s[0]] + s[1..] == s;
    }
  }

  /** Escaping is undone by the shell: the escaped text is one word whose
      value is the original string, whatever it contains (the empty string
      included, which `''` passes as an empty argument). */
  lemma ReadWordEscapeShellArg(s: string)
    ensures ReadWord(EscapeShellArg(s)) == Some(s)
  {
    var w := EscapeShellArg(s);
    assert w[0] == '\'';
    assert w[1..] == EscapeBody(s) + "'";
    UnquoteEscapeBody(s);
  }

  /** Text without single quotes or backslashes is read back literally
      exactly when every character is literal, and otherwise not at all. */
  lemma {:induction false} UnquotePlain(w: string)
    requires forall j :: 0 <= j < |w| ==> w[j] != '\'' && w[j] != '\\'
    ensures Unquote(w, false) == if forall j :: 0 <= j < |w| ==> IsLiteral(w[j]) then Some(w) else None
    decreases |w|
  {
    if w != [] {
      var t := w[1..];
      assert forall j :: 0 <= j < |t| ==> t[j] == w[j + 1];
      UnquotePlain(t);
      if IsLiteral(w[0]) && forall j :: 0 <= j < |t| ==> IsLiteral(t[j]) {
        assert [w[0]] + t == w;
      } else if IsLiteral(w[0]) {
        var j :| 0 <= j < |t| && !IsLiteral(t[j]);
        assert !IsLiteral(w[j + 1]);
      }
    }
  }

  /** For text without single quotes or backslashes the shell gives back the
      text itself as one argument exactly when it is non-empty, does not
      start with `#` or `~`, and holds only literal characters; otherwise it
      is not read as that one argument. */
  lemma ReadPlainWord(w: string)
    requires forall j :: 0 <= j < |w| ==> w[j] != '\'' && w[j] != '\\'
    ensures ReadWord(w) ==
      if w != [] && w[0] != '#' && w[0] != '~' && forall j :: 0 <= j < |w| ==> IsLiteral(w[j]) then Some(w) else None
  {
    UnquotePlain(w);
  }

  /** Text without single quotes or backslashes that holds a blank, an
      operator, a double quote, a backtick or a `$` starting an expansion is
      not passed as one literal argument: the shell splits it, acts on the
      operator, removes the quote or expands. */
  lemma ReadWordRejectsSpecial(w: string, i: nat)
    requires i < |w| && BreaksWord(w, i)
    requires forall j :: 0 <= j < |w| ==> w[j] != '\'' && w[j] != '\\'
    ensures ReadWord(w) == None
  {
    ReadPlainWord(w);
  }

}
