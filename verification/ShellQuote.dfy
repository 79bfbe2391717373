/**
  Quoting for the shell, and the shell's own token recognition that has to undo it: sections
  2.2 and 2.3 of the Shell Command Language, IEEE Std 1003.1.
  */
module ShellQuote {
  import opened Common

  datatype Token = Word(text: string) | Operator(text: string)

  /** The token being read. */
  datatype Current = NoToken | InWord(text: string) | InOperator(text: string)

  datatype Mode = Plain | Single | Double

  predicate IsOperator(s: string) {
    s in {"&", "|", ";", "<", ">", "(", ")", "\n", "&&", "||", ";;", "<<", ">>", "<&", ">&", "<>", ">|", "<<-"}
  }

  /** Unquoted, these lead to expansions, of which nothing is said here. */
  predicate Expands(c: char) {
    c in {'$', '`', '*', '?', '[', '~'}
  }

  function Ended(cur: Current): seq<Token> {
    match cur
    case NoToken => []
    case InWord(text) => [Word(text)]
    case InOperator(text) => [Operator(text)]
  }

  function TextOf(cur: Current): string {
    if cur.InWord? then cur.text else ""
  }

  function Prepend(tokens: seq<Token>, rest: Option<seq<Token>>): Option<seq<Token>> {
    if rest.None? then None else Some(tokens + rest.value)
  }

  /** Reads on in `mode` with `cur` begun; `None` for an open quote and for what would be expanded. */
  function Scan(s: string, mode: Mode, cur: Current): Option<seq<Token>>
    decreases |s|, if cur.InOperator? then 1 else 0
  {
    if |s| == 0 then (if mode == Plain then Some(Ended(cur)) else None)
    else
      var c, rest := s[0], s[1..];
      match mode
      case Single =>
        if c == '\'' then Scan(rest, Plain, InWord(TextOf(cur)))
        else Scan(rest, Single, InWord(TextOf(cur) + [c]))
      case Double =>
        if c == '"' then Scan(rest, Plain, InWord(TextOf(cur)))
        else if c == '$' || c == '`' then None
        else if c == '\\' && |rest| > 0 && rest[0] in {'$', '`', '"', '\\'} then Scan(rest[1..], Double, InWord(TextOf(cur) + [rest[0]]))
        else if c == '\\' && |rest| > 0 && rest[0] == '\n' then Scan(rest[1..], Double, InWord(TextOf(cur)))
        else Scan(rest, Double, InWord(TextOf(cur) + [c]))
      case Plain =>
        if cur.InOperator? then
          (if IsOperator(cur.text + [c]) then Scan(rest, Plain, InOperator(cur.text + [c]))
           else Prepend(Ended(cur), Scan(s, Plain, NoToken)))
        else if c == '\'' then Scan(rest, Single, InWord(TextOf(cur)))
        else if c == '"' then Scan(rest, Double, InWord(TextOf(cur)))
        else if c == '\\' then
          (if |rest| == 0 then None
           else if rest[0] == '\n' then Scan(rest[1..], Plain, cur)
           else Scan(rest[1..], Plain, InWord(TextOf(cur) + [rest[0]])))
        else if Expands(c) then None
        else if IsOperator([c]) then Prepend(Ended(cur), Scan(rest, Plain, InOperator([c])))
        else if c == ' ' || c == '\t' then Prepend(Ended(cur), Scan(rest, Plain, NoToken))
        else if c == '#' && cur.NoToken? then Scan(AfterComment(rest), Plain, NoToken)
        else Scan(rest, Plain, InWord(TextOf(cur) + [c]))
  }

  function AfterComment(s: string): (r: string)
    ensures |r| <= |s|
  {
    if |s| == 0 || s[0] == '\n' then s else AfterComment(s[1..])
  }

  function Tokens(s: string): Option<seq<Token>> {
    Scan(s, Plain, NoToken)
  }

  // ---------------------------------------------------------------- quoting

  predicate IsSafe(c: char) {
    'A' <= c <= 'Z' || 'a' <= c <= 'z' || '0' <= c <= '9' || c in {'_', '@', '%', '+', '=', ':', ',', '.', '/', '-'}
  }

  predicate AllSafe(s: string) {
    forall k :: 0 <= k < |s| ==> IsSafe(s[k])
  }

  const QUOTED_QUOTE := "'\"'\"'"

  /** Every single quote leaves the quotes, comes in double quotes, and enters them again. */
  function Escaped(s: string): string {
    if |s| == 0 then "" else (if s[0] == '\'' then QUOTED_QUOTE else [s[0]]) + Escaped(s[1..])
  }

  function ShellQuote(s: string): string {
    if s == "" then "''" else if AllSafe(s) then s else "'" + Escaped(s) + "'"
  }

  lemma {:induction false} EscapedIsLonger(s: string)
    ensures |Escaped(s)| >= |s|
  {
    if |s| > 0 {
      EscapedIsLonger(s[1..]);
    }
  }

  /** Quotes are put only where they are needed: round an empty string, or one with other than letters, digits and `_@%+=:,./-`. */
  lemma QuotedExactly(s: string)
    ensures ShellQuote(s) == s <==>
            s != "" && forall k :: 0 <= k < |s| ==> 'A' <= s[k] <= 'Z' || 'a' <= s[k] <= 'z' || '0' <= s[k] <= '9' || s[k] in "_@%+=:,./-"
  {
    EscapedIsLonger(s);
  }

  // ---------------------------------------------------------------- the shell undoes it

  lemma SafeStep(c: char, rest: string, cur: Current)
    requires IsSafe(c) && !cur.InOperator?
    ensures Scan([c] + rest, Plain, cur) == Scan(rest, Plain, InWord(TextOf(cur) + [c]))
  {
    assert ([c] + rest)[0] == c && ([c] + rest)[1..] == rest;
    assert [c][0] == c;
    assert !IsOperator([c]);
  }

  lemma {:induction false} SafeText(s: string, rest: string, cur: Current)
    requires AllSafe(s) && !cur.InOperator? && |s| > 0
    ensures Scan(s + rest, Plain, cur) == Scan(rest, Plain, InWord(TextOf(cur) + s))
    decreases |s|
  {
    hide Scan;
    SafeStep(s[0], s[1..] + rest, cur);
    assert s + rest == [s[0]] + (s[1..] + rest);
    if |s| > 1 {
      SafeText(s[1..], rest, InWord(TextOf(cur) + [s[0]]));
      assert TextOf(cur) + [s[0]] + s[1..] == TextOf(cur) + s;
    } else {
      assert s[1..] + rest == rest && [s[0]] == s;
    }
  }

  /** One character of quoted text. */
  lemma SingleStep(c: char, rest: string, w: string)
    ensures Scan((if c == '\'' then QUOTED_QUOTE else [c]) + rest, Single, InWord(w)) == Scan(rest, Single, InWord(w + [c]))
  {
    if c == '\'' {
      var s := QUOTED_QUOTE + rest;
      assert s[0] == '\'' && s[1..][0] == '"' && s[1..][1..][0] == '\'' && s[1..][1..][1..][0] == '"' && s[1..][1..][1..][1..][0] == '\'';
      assert s[1..][1..][1..][1..][1..] == rest;
      var t := s[1..][1..];
      assert Scan(s, Single, InWord(w)) == Scan(s[1..], Plain, InWord(w)) == Scan(t, Double, InWord(w));
      assert Scan(t, Double, InWord(w)) == Scan(t[1..], Double, InWord(w + [c])) == Scan(t[1..][1..], Plain, InWord(w + [c]));
      assert Scan(t[1..][1..], Plain, InWord(w + [c])) == Scan(rest, Single, InWord(w + [c]));
    } else {
      assert ([c] + rest)[0] == c && ([c] + rest)[1..] == rest;
    }
  }

  lemma {:induction false} EscapedText(s: string, rest: string, w: string)
    ensures Scan(Escaped(s) + "'" + rest, Single, InWord(w)) == Scan(rest, Plain, InWord(w + s))
    decreases |s|
  {
    if |s| == 0 {
      assert Escaped(s) + "'" + rest == "'" + rest;
      assert ("'" + rest)[0] == '\'' && ("'" + rest)[1..] == rest;
      assert w + s == w;
    } else {
      var head := if s[0] == '\'' then QUOTED_QUOTE else [s[0]];
      assert Escaped(s) + "'" + rest == head + (Escaped(s[1..]) + "'" + rest);
      SingleStep(s[0], Escaped(s[1..]) + "'" + rest, w);
      EscapedText(s[1..], rest, w + [s[0]]);
      assert w + [s[0]] + s[1..] == w + s;
    }
  }

  lemma EmptyText(rest: string)
    ensures Scan("''" + rest, Plain, NoToken) == Scan(rest, Plain, InWord(""))
  {
    var t := "''" + rest;
    assert t[0] == '\'' && t[1..][0] == '\'' && t[1..][1..] == rest;
  }

  lemma OpensQuote(s: string)
    ensures Scan("'" + s, Plain, NoToken) == Scan(s, Single, InWord(""))
  {
    assert ("'" + s)[0] == '\'' && ("'" + s)[1..] == s;
  }

  /** Where a token may begin, a quoted string reads as that string. */
  lemma QuotedText(s: string, rest: string)
    ensures Scan(ShellQuote(s) + rest, Plain, NoToken) == Scan(rest, Plain, InWord(s))
  {
    hide Scan, Escaped;
    assert "" + s == s;
    if s == "" {
      EmptyText(rest);
    } else if AllSafe(s) {
      SafeText(s, rest, NoToken);
    } else {
      assert ShellQuote(s) + rest == "'" + (Escaped(s) + "'" + rest);
      OpensQuote(Escaped(s) + "'" + rest);
      EscapedText(s, rest, "");
    }
  }

  /** Quoting and reading gives the string back, whatever it is. */
  lemma QuoteThenRead(s: string)
    ensures Tokens(ShellQuote(s)) == Some([Word(s)])
  {
    QuotedText(s, "");
    assert ShellQuote(s) + "" == ShellQuote(s);
  }

  lemma WordEnds(w: string, rest: string)
    ensures Scan(" " + rest, Plain, InWord(w)) == Prepend([Word(w)], Scan(rest, Plain, NoToken))
  {
    assert (" " + rest)[0] == ' ' && (" " + rest)[1..] == rest;
    assert !IsOperator(" ");
  }

  /** Strings that are quoted and put together with spaces. */
  function Joined(words: seq<string>): string {
    if |words| == 0 then ""
    else if |words| == 1 then ShellQuote(words[0])
    else ShellQuote(words[0]) + " " + Joined(words[1..])
  }

  function Words(words: seq<string>): seq<Token> {
    seq(|words|, k requires 0 <= k < |words| => Word(words[k]))
  }

  lemma NothingToRead()
    ensures Scan("", Plain, NoToken) == Some([])
  {
  }

  /** A command line made of quoted strings has those strings for its words. */
  lemma {:induction false} JoinThenRead(words: seq<string>)
    ensures Tokens(Joined(words)) == Some(Words(words))
  {
    hide Scan, ShellQuote;
    if |words| == 0 {
      NothingToRead();
    } else if |words| == 1 {
      QuoteThenRead(words[0]);
      assert Words(words) == [Word(words[0])];
    } else {
      QuotedText(words[0], " " + Joined(words[1..]));
      assert ShellQuote(words[0]) + " " + Joined(words[1..]) == ShellQuote(words[0]) + (" " + Joined(words[1..]));
      WordEnds(words[0], Joined(words[1..]));
      JoinThenRead(words[1..]);
      assert [Word(words[0])] + Words(words[1..]) == Words(words);
    }
  }

  // ---------------------------------------------------------------- the install command

  lemma PlainWord(w: string, rest: string)
    requires AllSafe(w) && |w| > 0
    ensures Scan(w + (" " + rest), Plain, NoToken) == Prepend([Word(w)], Scan(rest, Plain, NoToken))
  {
    hide Scan;
    SafeText(w, " " + rest, NoToken);
    assert "" + w == w;
    WordEnds(w, rest);
  }

  lemma OperatorBegins(op: char, rest: string, cur: Current)
    requires op in {';', '|'} && !cur.InOperator?
    ensures Scan([op] + rest, Plain, cur) == Prepend(Ended(cur), Scan(rest, Plain, InOperator([op])))
  {
    assert ([op] + rest)[0] == op && ([op] + rest)[1..] == rest;
    assert IsOperator([op]);
  }

  lemma SpaceSkipped(rest: string)
    ensures Scan(" " + rest, Plain, NoToken) == Scan(rest, Plain, NoToken)
  {
    assert (" " + rest)[0] == ' ' && (" " + rest)[1..] == rest;
    assert !IsOperator(" ");
    var read := Scan(rest, Plain, NoToken);
    assert Scan(" " + rest, Plain, NoToken) == Prepend([], read);
    assert read.Some? ==> [] + read.value == read.value;
  }

  lemma OperatorEnds(op: char, rest: string)
    requires op in {';', '|'}
    ensures Scan(" " + rest, Plain, InOperator([op])) == Prepend([Operator([op])], Scan(rest, Plain, NoToken))
  {
    assert (" " + rest)[0] == ' ' && ([op] + [' '])[1] == ' ';
    assert !IsOperator([op] + [' ']) by {
      assert forall s :: IsOperator(s) && |s| == 2 ==> s[1] != ' ';
    }
    SpaceSkipped(rest);
  }

  /** A word with an operator behind it, and a space behind that. */
  lemma WordAndOperator(w: string, op: char, rest: string)
    requires AllSafe(w) && |w| > 0 && op in {';', '|'}
    ensures Scan(w + ([op] + (" " + rest)), Plain, NoToken) == Prepend([Word(w)], Prepend([Operator([op])], Scan(rest, Plain, NoToken)))
  {
    hide Scan;
    SafeText(w, [op] + (" " + rest), NoToken);
    assert "" + w == w;
    OperatorBegins(op, " " + rest, InWord(w));
    OperatorEnds(op, rest);
  }

  lemma LoneOperator(op: char, rest: string)
    requires op in {';', '|'}
    ensures Scan([op] + (" " + rest), Plain, NoToken) == Prepend([Operator([op])], Scan(rest, Plain, NoToken))
  {
    hide Scan;
    OperatorBegins(op, " " + rest, NoToken);
    OperatorEnds(op, rest);
    Pieces([], [Operator([op])], Scan(rest, Plain, NoToken));
    assert [] + [Operator([op])] == [Operator([op])];
  }

  lemma QuotedWord(s: string, rest: string)
    ensures Scan(ShellQuote(s) + (" " + rest), Plain, NoToken) == Prepend([Word(s)], Scan(rest, Plain, NoToken))
  {
    hide Scan, ShellQuote;
    QuotedText(s, " " + rest);
    WordEnds(s, rest);
  }

  lemma LastWord(w: string)
    requires AllSafe(w) && |w| > 0
    ensures Scan(w, Plain, NoToken) == Some([Word(w)])
  {
    SafeText(w, "", NoToken);
    assert w + "" == w && "" + w == w;
  }

  /** The command line, put together from right to left. */
  function CommandAfterUrl(pairingCode: string): string {
    "--pairing-code" + (" " + (ShellQuote(pairingCode) + (" " + ("--install-dir" + (" " + "/opt/vsatellite")))))
  }

  lemma AfterUrl(pairingCode: string)
    ensures Scan(CommandAfterUrl(pairingCode), Plain, NoToken)
         == Some([Word("--pairing-code"), Word(pairingCode), Word("--install-dir"), Word("/opt/vsatellite")])
  {
    hide Scan, ShellQuote;
    var end := "--install-dir" + (" " + "/opt/vsatellite");
    PlainWord("--pairing-code", ShellQuote(pairingCode) + (" " + end));
    QuotedWord(pairingCode, end);
    PlainWord("--install-dir", "/opt/vsatellite");
    LastWord("/opt/vsatellite");
    assert [Word("--install-dir")] + [Word("/opt/vsatellite")] == [Word("--install-dir"), Word("/opt/vsatellite")];
    assert [Word(pairingCode)] + [Word("--install-dir"), Word("/opt/vsatellite")] == [Word(pairingCode), Word("--install-dir"), Word("/opt/vsatellite")];
    assert [Word("--pairing-code")] + [Word(pairingCode), Word("--install-dir"), Word("/opt/vsatellite")]
        == [Word("--pairing-code"), Word(pairingCode), Word("--install-dir"), Word("/opt/vsatellite")];
  }

  lemma Pieces(a: seq<Token>, b: seq<Token>, rest: Option<seq<Token>>)
    ensures Prepend(a, Prepend(b, rest)) == Prepend(a + b, rest)
  {
    if rest.Some? {
      assert a + (b + rest.value) == a + b + rest.value;
    }
  }

  function OptionsBeforeUrl(rest: string): string {
    "install" + (" " + ("--accept-license-agreement" + (" " + ("--silent" + (" " + ("--api-url" + (" " + rest)))))))
  }

  lemma BeforeUrl(rest: string)
    ensures Scan(OptionsBeforeUrl(rest), Plain, NoToken)
         == Prepend([Word("install"), Word("--accept-license-agreement"), Word("--silent"), Word("--api-url")], Scan(rest, Plain, NoToken))
  {
    hide Scan;
    var c := "--api-url" + (" " + rest);
    var b := "--silent" + (" " + c);
    var a := "--accept-license-agreement" + (" " + b);
    PlainWord("install", a);
    PlainWord("--accept-license-agreement", b);
    PlainWord("--silent", c);
    PlainWord("--api-url", rest);
    var read := Scan(rest, Plain, NoToken);
    hide Prepend;
    var t, u, v, w := Word("install"), Word("--accept-license-agreement"), Word("--silent"), Word("--api-url");
    Pieces([v], [w], read);
    Pieces([u], [v, w], read);
    Pieces([t], [u, v, w], read);
    assert [v] + [w] == [v, w] && [u] + [v, w] == [u, v, w] && [t] + [u, v, w] == [t, u, v, w];
  }

  /** The environment, a `yes` to every question, and the tool. */
  function InstallCommand(apiUrl: string, pairingCode: string): string {
    "export" + (" " + ("TERM=xterm-256color" + (";" + (" " + ("yes" + (" " + ("|" + (" " + ("/tmp/vsatctl" + (" "
    + OptionsBeforeUrl(ShellQuote(apiUrl) + (" " + CommandAfterUrl(pairingCode)))))))))))))
  }

  /** For every URL and pairing code the shell sees two commands in a pipe, with these arguments. */
  lemma InstallCommandReads(apiUrl: string, pairingCode: string)
    ensures Tokens(InstallCommand(apiUrl, pairingCode))
         == Some([Word("export"), Word("TERM=xterm-256color"), Operator(";"), Word("yes"), Operator("|"), Word("/tmp/vsatctl")]
                 + [Word("install"), Word("--accept-license-agreement"), Word("--silent"), Word("--api-url")] + [Word(apiUrl)]
                 + [Word("--pairing-code"), Word(pairingCode), Word("--install-dir"), Word("/opt/vsatellite")])
  {
    hide Scan, ShellQuote, CommandAfterUrl, OptionsBeforeUrl;
    var e := ShellQuote(apiUrl) + (" " + CommandAfterUrl(pairingCode));
    var d := OptionsBeforeUrl(e);
    var c := "/tmp/vsatctl" + (" " + d);
    var b := "yes" + (" " + ("|" + (" " + c)));
    PlainWord("export", "TERM=xterm-256color" + (";" + (" " + b)));
    WordAndOperator("TERM=xterm-256color", ';', b);
    PlainWord("yes", "|" + (" " + c));
    LoneOperator('|', c);
    PlainWord("/tmp/vsatctl", d);
    BeforeUrl(e);
    QuotedWord(apiUrl, CommandAfterUrl(pairingCode));
    AfterUrl(pairingCode);
    StartOfCommand(Scan(d, Plain, NoToken));
    Pieces([Word("install"), Word("--accept-license-agreement"), Word("--silent"), Word("--api-url")], [Word(apiUrl)],
           Scan(CommandAfterUrl(pairingCode), Plain, NoToken));
    Associated([Word("export"), Word("TERM=xterm-256color"), Operator(";"), Word("yes"), Operator("|"), Word("/tmp/vsatctl")],
               [Word("install"), Word("--accept-license-agreement"), Word("--silent"), Word("--api-url")], [Word(apiUrl)],
               [Word("--pairing-code"), Word(pairingCode), Word("--install-dir"), Word("/opt/vsatellite")]);
  }

  lemma StartOfCommand(rest: Option<seq<Token>>)
    ensures Prepend([Word("export")], Prepend([Word("TERM=xterm-256color")], Prepend([Operator(";")],
              Prepend([Word("yes")], Prepend([Operator("|")], Prepend([Word("/tmp/vsatctl")], rest))))))
         == Prepend([Word("export"), Word("TERM=xterm-256color"), Operator(";"), Word("yes"), Operator("|"), Word("/tmp/vsatctl")], rest)
  {
    var a, b, c, d, e, f := Word("export"), Word("TERM=xterm-256color"), Operator(";"), Word("yes"), Operator("|"), Word("/tmp/vsatctl");
    hide Prepend;
    Pieces([e], [f], rest);
    Pieces([d], [e, f], rest);
    Pieces([c], [d, e, f], rest);
    Pieces([b], [c, d, e, f], rest);
    Pieces([a], [b, c, d, e, f], rest);
    assert [e] + [f] == [e, f] && [d] + [e, f] == [d, e, f] && [c] + [d, e, f] == [c, d, e, f];
    assert [b] + [c, d, e, f] == [b, c, d, e, f] && [a] + [b, c, d, e, f] == [a, b, c, d, e, f];
  }

  lemma Associated(a: seq<Token>, b: seq<Token>, c: seq<Token>, d: seq<Token>)
    ensures a + ((b + c) + d) == a + b + c + d
  {
  }
}
