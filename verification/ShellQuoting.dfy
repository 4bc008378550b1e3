/** Shell quoting, and a reader for the quoting rules of the POSIX Shell Command Language
    (sections 2.2.1 and 2.2.2) that gets every word back. */
module ShellQuoting {
  import opened Options

  predicate IsBare(c: char) {
    || 'a' <= c <= 'z' || 'A' <= c <= 'Z' || '0' <= c <= '9'
    || c in {'@', '%', '_', '+', '=', ':', ',', '.', '/', '-'}
  }

  predicate IsAllBare(s: string) {
    forall i :: 0 <= i < |s| ==> IsBare(s[i])
  }

  /** Each single quote closed, escaped and reopened. */
  function EscapeQuotes(s: string): string {
    if s == "" then ""
    else (if s[0] == '\'' then "'\\''" else [s[0]]) + EscapeQuotes(s[1..])
  }

  function ShellQuote(value: string): string {
    if value != "" && IsAllBare(value) then value else "'" + EscapeQuotes(value) + "'"
  }

  function SshCheckCommand(target: string): string {
    "ssh " + ShellQuote(target)
  }

  /** From + to :, from @ to Z, from a to z, and % = _ . */
  predicate NeedsNoQuotes(c: char) {
    || 0x2b <= c as int <= 0x3a || 0x40 <= c as int <= 0x5a || 0x61 <= c as int <= 0x7a
    || c as int in {0x25, 0x3d, 0x5f}
  }

  /** A word is left as it is exactly when it is not empty and has only such characters; any other is put
      between single quotes. */
  lemma QuotedExactly(value: string)
    ensures var quoted := ShellQuote(value);
            if value != "" && (forall i :: 0 <= i < |value| ==> NeedsNoQuotes(value[i])) then quoted == value
            else |quoted| >= |value| + 2 && quoted[0] as int == 0x27 && quoted[|quoted| - 1] as int == 0x27
  {
    forall i | 0 <= i < |value|
      ensures NeedsNoQuotes(value[i]) <==> IsBare(value[i])
    {
      BareExactly(value[i]);
    }
    EscapingAdds(value);
    hide EscapeQuotes;
  }

  lemma BareExactly(c: char)
    ensures NeedsNoQuotes(c) <==> IsBare(c)
  {}

  lemma {:induction false} EscapingAdds(s: string)
    ensures |EscapeQuotes(s)| >= |s|
    decreases |s|
  {
    if s != "" {
      EscapingAdds(s[1..]);
    }
  }

  // ----- Reading a command line -----

  /** Characters the shell gives a meaning of its own when they are not quoted. */
  predicate IsSpecial(c: char) {
    c in {'|', '&', ';', '<', '>', '(', ')', '$', '`', '"', '*', '?', '[', '#', '~', '\n'}
  }

  predicate IsBlank(c: char) {
    c == ' ' || c == '\t'
  }

  datatype Mode = Between | Plain | SingleQuoted

  /** The words of a simple command, or none when it uses anything beyond backslash and single
      quotes or leaves a quote open. A backslash in front of a newline joins lines. */
  function ReadFrom(s: string, mode: Mode, word: string, words: seq<string>): Option<seq<string>>
    decreases |s|
  {
    match mode
    case SingleQuoted =>
      if s == "" then None
      else if s[0] == '\'' then ReadFrom(s[1..], Plain, word, words)
      else ReadFrom(s[1..], SingleQuoted, word + [s[0]], words)
    case _ =>
      if s == "" then Some(if mode == Plain then words + [word] else words)
      else if IsBlank(s[0]) then ReadFrom(s[1..], Between, "", if mode == Plain then words + [word] else words)
      else if s[0] == '\'' then ReadFrom(s[1..], SingleQuoted, word, words)
      else if s[0] == '\\' then
        if |s| == 1 then None
        else if s[1] == '\n' then ReadFrom(s[2..], mode, word, words)
        else ReadFrom(s[2..], Plain, word + [s[1]], words)
      else if IsSpecial(s[0]) then None
      else ReadFrom(s[1..], Plain, word + [s[0]], words)
  }

  function ReadWords(s: string): Option<seq<string>> {
    ReadFrom(s, Between, "", [])
  }

  // ----- Round trips -----

  lemma {:induction false} BareReads(v: string, mode: Mode, word: string, words: seq<string>)
    requires IsAllBare(v) && mode != SingleQuoted && (v != "" || mode == Plain)
    ensures ReadFrom(v, mode, word, words) == Some(words + [word + v])
    decreases |v|
  {
    if v == "" {
      assert word + v == word;
    } else {
      assert IsBare(v[0]);
      BareReads(v[1..], Plain, word + [v[0]], words);
      assert word + [v[0]] + v[1..] == word + v;
    }
  }

  /** An escaped quote inside single quotes reads as one quote character. */
  lemma EscapedQuoteReads(rest: string, word: string, words: seq<string>)
    ensures ReadFrom("'\\''" + rest, SingleQuoted, word, words) == ReadFrom(rest, SingleQuoted, word + ['\''], words)
  {
    var all := "'\\''" + rest;
    var s1, s2 := all[1..], all[3..];
    assert s1[0] == '\\' && s1[1] == '\'' && s1[2..] == s2;
    assert s2[0] == '\'' && s2[1..] == rest;
    assert ReadFrom(s2, Plain, word + ['\''], words) == ReadFrom(rest, SingleQuoted, word + ['\''], words);
    assert ReadFrom(s1, Plain, word, words) == ReadFrom(s2, Plain, word + ['\''], words);
  }

  lemma {:induction false} EscapedReads(v: string, word: string, words: seq<string>)
    ensures ReadFrom(EscapeQuotes(v) + "'", SingleQuoted, word, words) == Some(words + [word + v])
    decreases |v|
  {
    if v == "" {
      assert word + v == word;
    } else {
      var rest := EscapeQuotes(v[1..]) + "'";
      EscapedReads(v[1..], word + [v[0]], words);
      assert word + [v[0]] + v[1..] == word + v;
      if v[0] == '\'' {
        EscapedQuoteReads(rest, word, words);
        assert EscapeQuotes(v) + "'" == "'\\''" + rest;
      } else {
        assert EscapeQuotes(v) + "'" == [v[0]] + rest;
        assert ([v[0]] + rest)[1..] == rest;
      }
    }
  }

  /** Wherever a word may begin, reading the quoted value gives exactly that value as one word. */
  lemma QuotedReads(value: string, words: seq<string>)
    ensures ReadFrom(ShellQuote(value), Between, "", words) == Some(words + [value])
  {
    assert "" + value == value;
    if value != "" && IsAllBare(value) {
      BareReads(value, Between, "", words);
    } else {
      var quoted := "'" + EscapeQuotes(value) + "'";
      assert quoted == "'" + (EscapeQuotes(value) + "'");
      assert quoted[0] == '\'' && quoted[1..] == EscapeQuotes(value) + "'";
      EscapedReads(value, "", words);
    }
  }

  /** For every string the quoted form is one word with that string as its value. */
  lemma ShellQuoteRoundTrip(value: string)
    ensures ReadWords(ShellQuote(value)) == Some([value])
  {
    QuotedReads(value, []);
    assert [] + [value] == [value];
  }

  /** The suggested command has exactly two words, whatever the target is. */
  lemma SshCheckCommandReads(target: string)
    ensures ReadWords(SshCheckCommand(target)) == Some(["ssh", target])
  {
    var rest := ShellQuote(target);
    QuotedReads(target, ["ssh"]);
    var s0 := "ssh " + rest;
    var s1, s2, s3 := s0[1..], s0[2..], s0[3..];
    assert s3[0] == ' ' && s3[1..] == rest && s2[0] == 'h' && s2[1..] == s3
           && s1[0] == 's' && s1[1..] == s2 && s0[0] == 's';
    hide ShellQuote;
    assert [] + ["ssh"] == ["ssh"];
    assert ReadFrom(s3, Plain, "ssh", []) == ReadFrom(rest, Between, "", ["ssh"]);
    assert "ss" + ['h'] == "ssh" && "s" + ['s'] == "ss" && "" + ['s'] == "s";
    assert ReadFrom(s2, Plain, "ss", []) == ReadFrom(s3, Plain, "ssh", []);
    assert ReadFrom(s1, Plain, "s", []) == ReadFrom(s2, Plain, "ss", []);
    assert ReadFrom(s0, Between, "", []) == ReadFrom(s1, Plain, "s", []);
    assert ["ssh"] + [target] == ["ssh", target];
  }
}
