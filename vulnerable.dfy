/** The vulnerable endpoint: after the emptiness check the raw `seconds`
    field is appended to `sleep ` and handed to the shell as it is. */
module Vulnerable {
  import opened Wrappers
  import opened PhpNumeric
  import opened PosixShell
  import opened Endpoint
  import Safe

  function Handle(requestMethod: string, field: Option<string>): Outcome<string> {
    if requestMethod != "POST" then Error(MethodRequired)
    else
      var seconds := FieldOrEmpty(field);
      if Empty(seconds) then Error(SecondsRequired) else Run("sleep " + seconds, seconds)
  }

  /** Any method but POST is refused, and no command is built. */
  lemma MethodGuard(requestMethod: string, field: Option<string>)
    requires requestMethod != "POST"
    ensures Handle(requestMethod, field) == Error(MethodRequired)
  {
  }

  /** A missing field, an empty one, and "0" are refused as missing, and
      nothing else is. */
  lemma RequiredGuard(field: Option<string>)
    ensures Handle("POST", field) == Error(SecondsRequired) <==> field == None || field == Some("") || field == Some("0")
  {
  }

  /** There is no other check: every POST whose field is not empty in PHP's
      sense builds a command. */
  lemma AcceptsEverythingElse(requestMethod: string, field: Option<string>)
    ensures Handle(requestMethod, field).Run? <==> requestMethod == "POST" && !Empty(FieldOrEmpty(field))
  {
  }

  /** The raw field is a verbatim suffix of the command, character for
      character, and it is echoed unchanged as `requested`. */
  lemma VerbatimSuffix(requestMethod: string, field: Option<string>)
    requires Handle(requestMethod, field).Run?
    ensures var seconds := FieldOrEmpty(field);
            var o := Handle(requestMethod, field);
            && o.requested == seconds
            && |o.command| == 6 + |seconds|
            && o.command[..6] == "sleep "
            && (forall i :: 0 <= i < |seconds| ==> o.command[6 + i] == seconds[i])
  {
  }

  /** Every character of the input, metacharacters included, reaches the
      command as many times as it occurs in the input. */
  lemma MetacharactersSurvive(field: Option<string>, c: char)
    requires Handle("POST", field).Run?
    ensures multiset(Handle("POST", field).command)[c] == multiset("sleep ")[c] + multiset(FieldOrEmpty(field))[c]
  {
    var seconds := FieldOrEmpty(field);
    assert multiset("sleep " + seconds) == multiset("sleep ") + multiset(seconds);
  }

  /** A field without single quotes or backslashes that holds a blank, an
      operator, a double quote, a backtick or a `$` starting an expansion
      runs, and the shell does not pass it to `sleep` as one literal
      argument: it splits the text, acts on the operator, removes the quote
      or expands. */
  lemma ArgumentNotOneWord(field: Option<string>, i: nat)
    requires var seconds := FieldOrEmpty(field);
             && i < |seconds| && BreaksWord(seconds, i)
             && forall j :: 0 <= j < |seconds| ==> seconds[j] != '\'' && seconds[j] != '\\'
    ensures Handle("POST", field).Run?
    ensures Handle("POST", field).command == "sleep " + FieldOrEmpty(field)
    ensures ReadWord(FieldOrEmpty(field)) == None
  {
    var seconds := FieldOrEmpty(field);
    ReadWordRejectsSpecial(seconds, i);
  }

  /** The example exploit runs `cat /etc/passwd` after the sleep: the
      command is the input behind `sleep `, and the input is not one word. */
  lemma ExploitExample()
    ensures Handle("POST", Some("5; cat /etc/passwd")) == Run("sleep 5; cat /etc/passwd", "5; cat /etc/passwd")
    ensures ReadWord("5; cat /etc/passwd") == None
  {
    ExploitCommand();
    ExploitNotOneWord();
  }

  lemma ExploitCommand()
    ensures Handle("POST", Some("5; cat /etc/passwd")) == Run("sleep 5; cat /etc/passwd", "5; cat /etc/passwd")
  {
    var s := "5; cat /etc/passwd";
    assert |s| > 1;
    assert !Empty(s);
  }

  lemma ExploitNotOneWord()
    ensures ReadWord("5; cat /etc/passwd") == None
  {
    var s := "5; cat /etc/passwd";
    assert s[1..][0] == ';';
    assert Unquote(s[1..], false) == None;
  }

  /** The two endpoints side by side: an input holding a character that no
      numeric string holds is refused by the hardened endpoint and run, with
      that character in the command, by the vulnerable one. */
  lemma Contrast(seconds: string, i: nat)
    requires i < |seconds| && !IsNumericChar(seconds[i])
    ensures Safe.Handle("POST", Some(seconds)) == Error(NotANumber)
    ensures Handle("POST", Some(seconds)).Run?
    ensures Handle("POST", Some(seconds)).command[6 + i] == seconds[i]
  {
    Safe.MetacharRejected(seconds, i);
  }

}
