/**
 * Command text: the conservative tokenizer, the quoting printer, and, as the
 * reference for both, how a POSIX shell splits and unquotes a simple command.
 */
module ShellText {
  import opened Results
  import opened Text

  predicate IsMeta(c: char) {
    c == '|' || c == '&' || c == ';' || c == '<' || c == '>' || c == '$' || c == '`'
    || c == '(' || c == ')' || c == '{' || c == '}' || c == '\\' || c == '\n'
  }

  predicate HasMeta(s: string) { exists i :: 0 <= i < |s| && IsMeta(s[i]) }

  // ----- tokenize -----

  datatype Scan = Scan(tokens: seq<string>, cur: string, inTok: bool, quote: Option<char>)

  const SCAN_START := Scan([], "", false, None)

  function Feed(st: Scan, c: char): Scan {
    match st.quote
    case Some(q) => if c == q then st.(quote := None) else st.(cur := st.cur + [c])
    case None =>
      if c == '\'' || c == '"' then st.(quote := Some(c), inTok := true)
      else if IsWhitespace(c) then
        (if st.inTok then Scan(st.tokens + [st.cur], "", false, None) else st)
      else st.(cur := st.cur + [c], inTok := true)
  }

  function FeedAll(st: Scan, s: string): Scan
    decreases |s|
  {
    if s == "" then st else FeedAll(Feed(st, s[0]), s[1..])
  }

  /** The end of the command: an open quote or an empty command is passthrough. */
  function Tokens(st: Scan): Option<seq<string>> {
    if st.quote.Some? then None
    else
      var tokens := if st.inTok then st.tokens + [st.cur] else st.tokens;
      if tokens == [] then None else Some(tokens)
  }

  /** The argument vector of a single simple command, or None for passthrough. */
  function Tokenize(cmd: string): Option<seq<string>> {
    if HasMeta(cmd) then None else Tokens(FeedAll(SCAN_START, cmd))
  }

  predicate HasWord(st: Scan) { st.tokens != [] || st.inTok }

  lemma {:induction false} WordsNeedText(st: Scan, s: string)
    requires st.quote.Some? ==> st.inTok
    ensures var end := FeedAll(st, s);
            && (end.quote.Some? ==> end.inTok)
            && (HasWord(end) <==> HasWord(st) || exists i :: 0 <= i < |s| && !IsWhitespace(s[i]))
    decreases |s|
  {
    hide IsWhitespace;
    if s != "" {
      assert !IsWhitespace('\'') && !IsWhitespace('"') by {
        QuotesAreNoSpace();
      }
      WordsNeedText(Feed(st, s[0]), s[1..]);
      assert forall i :: 0 < i < |s| ==> s[i] == s[1..][i - 1];
    }
  }

  lemma QuotesAreNoSpace()
    ensures !IsWhitespace('\'') && !IsWhitespace('"')
  {
  }

  /** A command is accepted exactly when none of 13 characters is in it, every quote is closed and it is not blank. */
  lemma AcceptedIff(cmd: string)
    ensures Tokenize(cmd).Some? <==>
            && (forall c :: c in cmd ==>
                  c !in {'|', '&', ';', '<', '>', '$', '`', '(', ')', '{', '}', '\\', '\n'})
            && FeedAll(SCAN_START, cmd).quote.None? && exists i :: 0 <= i < |cmd| && !IsWhitespace(cmd[i])
  {
    WordsNeedText(SCAN_START, cmd);
    hide FeedAll, IsWhitespace;
    assert forall i :: 0 <= i < |cmd| ==> cmd[i] in cmd;
  }

  lemma {:induction false} FeedAllConcat(st: Scan, a: string, b: string)
    ensures FeedAll(st, a + b) == FeedAll(FeedAll(st, a), b)
    decreases |a|
  {
    if a == "" {
      assert a + b == b;
    } else {
      assert (a + b)[1..] == a[1..] + b;
      FeedAllConcat(Feed(st, a[0]), a[1..], b);
    }
  }

  /** The tokenizer's loop over the characters. */
  method TokenizeLoop(cmd: string) returns (r: Option<seq<string>>)
    ensures r == Tokenize(cmd)
  {
    for i := 0 to |cmd|
      invariant forall j :: 0 <= j < i ==> !IsMeta(cmd[j])
    {
      if IsMeta(cmd[i]) {
        return None;
      }
    }
    var tokens: seq<string> := [];
    var cur, inTok, quote := "", false, None;
    for i := 0 to |cmd|
      invariant Scan(tokens, cur, inTok, quote) == FeedAll(SCAN_START, cmd[..i])
    {
      var c := cmd[i];
      assert cmd[..i + 1] == cmd[..i] + [c];
      FeedAllConcat(SCAN_START, cmd[..i], [c]);
      assert FeedAll(Scan(tokens, cur, inTok, quote), [c]) == Feed(Scan(tokens, cur, inTok, quote), c);
      if quote.Some? {
        if c == quote.value {
          quote := None;
        } else {
          cur := cur + [c];
        }
      } else if c == '\'' || c == '"' {
        quote, inTok := Some(c), true;
      } else if IsWhitespace(c) {
        if inTok {
          tokens, cur, inTok := tokens + [cur], "", false;
        }
      } else {
        cur, inTok := cur + [c], true;
      }
    }
    assert cmd[..|cmd|] == cmd;
    if quote.Some? {
      return None;
    }
    if inTok {
      tokens := tokens + [cur];
    }
    return if tokens == [] then None else Some(tokens);
  }

  // ----- shq -----

  predicate IsSimpleChar(c: char) {
    ('a' <= c <= 'z') || ('A' <= c <= 'Z') || ('0' <= c <= '9')
    || c == '.' || c == '_' || c == '-' || c == '/' || c == '=' || c == ':' || c == ',' || c == '@'
  }

  predicate IsSimple(s: string) { |s| > 0 && forall i :: 0 <= i < |s| ==> IsSimpleChar(s[i]) }

  /** `s.replace('\'', "'\\''")` */
  function EscapeQuotes(s: string): string {
    if s == "" then ""
    else (if s[0] == '\'' then "'\\''" else [s[0]]) + EscapeQuotes(s[1..])
  }

  function Shq(s: string): string {
    if IsSimple(s) then s else "'" + EscapeQuotes(s) + "'"
  }

  lemma {:induction false} EscapingNeverShortens(s: string)
    ensures |EscapeQuotes(s)| >= |s|
  {
    if s != "" {
      EscapingNeverShortens(s[1..]);
    }
  }

  /** Left as they are, and so readable, are exactly the words of letters, digits and eight other characters. */
  lemma BareIff(s: string)
    ensures Shq(s) == s <==>
            s != "" && forall c :: c in s ==>
              'a' <= c <= 'z' || 'A' <= c <= 'Z' || '0' <= c <= '9' || c in {'.', '_', '-', '/', '=', ':', ',', '@'}
  {
    EscapingNeverShortens(s);
    assert forall i :: 0 <= i < |s| ==> s[i] in s;
    if !IsSimple(s) {
      assert |Shq(s)| > |s|;
    }
  }

  function ShqAll(words: seq<string>): (quoted: seq<string>)
    ensures |quoted| == |words|
    ensures forall i :: 0 <= i < |words| ==> quoted[i] == Shq(words[i])
  {
    if words == [] then [] else [Shq(words[0])] + ShqAll(words[1..])
  }

  /** The words quoted one by one and joined with spaces. */
  function CommandText(words: seq<string>): string { Join(ShqAll(words), ' ') }

  // ----- a POSIX shell reading a simple command -----

  datatype Mode = Plain | Single | Double | Escaped | DoubleEscaped

  datatype Reader = Reading(fields: seq<string>, cur: Option<string>, mode: Mode) | Rejected

  const READER_START := Reading([], None, Plain)

  /** `r` with `text` added to the current word. */
  function Append(r: Reader, text: string, mode: Mode): Reader
    requires r.Reading?
  {
    Reading(r.fields, Some((if r.cur.Some? then r.cur.value else "") + text), mode)
  }

  /**
   * One character under sections 2.2 and 2.3 of the POSIX.1-2017 Shell Command
   * Language. Rejected: an unquoted operator, newline, expansion, pattern, comment or
   * tilde, that is, everything that is more than quoting and blanks.
   */
  function ReadChar(r: Reader, c: char): Reader {
    if r.Rejected? then Rejected
    else
      match r.mode
      case Plain =>
        if c == ' ' || c == '\t' then
          (if r.cur.Some? then Reading(r.fields + [r.cur.value], None, Plain) else r)
        else if c == '\\' then r.(mode := Escaped)
        else if c == '\'' then Append(r, "", Single)
        else if c == '"' then Append(r, "", Double)
        else if c == '|' || c == '&' || c == ';' || c == '<' || c == '>' || c == '(' || c == ')' || c == '\n'
                || c == '$' || c == '`' || c == '*' || c == '?' || c == '[' then Rejected
        else if (c == '#' || c == '~') && r.cur.None? then Rejected
        else Append(r, [c], Plain)
      case Single => if c == '\'' then r.(mode := Plain) else Append(r, [c], Single)
      case Double =>
        if c == '"' then r.(mode := Plain)
        else if c == '\\' then r.(mode := DoubleEscaped)
        else if c == '$' || c == '`' then Rejected
        else Append(r, [c], Double)
      case Escaped => if c == '\n' then r.(mode := Plain) else Append(r, [c], Plain)
      case DoubleEscaped =>
        if c == '\n' then r.(mode := Double)
        else if c == '$' || c == '`' || c == '"' || c == '\\' then Append(r, [c], Double)
        else Append(r, ['\\', c], Double)
  }

  function ReadAll(r: Reader, s: string): Reader
    decreases |s|
  {
    if s == "" then r else ReadAll(ReadChar(r, s[0]), s[1..])
  }

  /** The end of the command ends the last word; an open quote or a trailing backslash is an error. */
  function Fields(r: Reader): Option<seq<string>> {
    if r.Rejected? || r.mode != Plain then None
    else Some(if r.cur.Some? then r.fields + [r.cur.value] else r.fields)
  }

  /** The fields a POSIX shell makes of `s`, if `s` is one simple command that needs only unquoting. */
  function PosixFields(s: string): Option<seq<string>> { Fields(ReadAll(READER_START, s)) }

  lemma {:induction false} ReadAllConcat(r: Reader, a: string, b: string)
    ensures ReadAll(r, a + b) == ReadAll(ReadAll(r, a), b)
    decreases |a|
  {
    if a == "" {
      assert a + b == b;
    } else {
      assert (a + b)[1..] == a[1..] + b;
      ReadAllConcat(ReadChar(r, a[0]), a[1..], b);
    }
  }

  lemma ReadOne(r: Reader, c: char)
    ensures ReadAll(r, [c]) == ReadChar(r, c)
  {
    assert [c][1..] == "";
    assert ReadAll(ReadChar(r, c), "") == ReadChar(r, c);
  }

  // ----- a shell reads back exactly what was quoted -----

  lemma {:induction false} ReadSimple(fields: seq<string>, cur: Option<string>, s: string)
    requires forall i :: 0 <= i < |s| ==> IsSimpleChar(s[i])
    requires s == "" ==> cur.Some?
    ensures ReadAll(Reading(fields, cur, Plain), s)
         == Reading(fields, Some((if cur.Some? then cur.value else "") + s), Plain)
    decreases |s|
  {
    var before := if cur.Some? then cur.value else "";
    if s == "" {
      assert before + s == before;
    } else {
      assert IsSimpleChar(s[0]);
      assert ReadChar(Reading(fields, cur, Plain), s[0]) == Reading(fields, Some(before + [s[0]]), Plain);
      ReadSimple(fields, Some(before + [s[0]]), s[1..]);
      assert before + [s[0]] + s[1..] == before + s;
    }
  }

  /** Inside single quotes, a quote is closed, escaped and reopened. */
  lemma ReadEscapedQuote(fields: seq<string>, cur: string)
    ensures ReadAll(Reading(fields, Some(cur), Single), "'\\''") == Reading(fields, Some(cur + "'"), Single)
  {
    var r := Reading(fields, Some(cur), Single);
    assert "'\\''"[1..] == "\\''" && "\\''"[1..] == "''" && "''"[1..] == "'" && "'"[1..] == "";
    assert cur + "'" + "" == cur + "'";
    assert ReadAll(Reading(fields, Some(cur + "'"), Plain), "'") == Reading(fields, Some(cur + "'"), Single);
    assert ReadAll(Reading(fields, Some(cur), Escaped), "''") == Reading(fields, Some(cur + "'"), Single);
    assert ReadAll(Reading(fields, Some(cur), Plain), "\\''") == Reading(fields, Some(cur + "'"), Single);
  }

  lemma {:induction false} ReadEscaped(fields: seq<string>, cur: string, s: string)
    ensures ReadAll(Reading(fields, Some(cur), Single), EscapeQuotes(s)) == Reading(fields, Some(cur + s), Single)
    decreases |s|
  {
    if s == "" {
      assert cur + s == cur;
    } else {
      var head := if s[0] == '\'' then "'\\''" else [s[0]];
      ReadAllConcat(Reading(fields, Some(cur), Single), head, EscapeQuotes(s[1..]));
      if s[0] == '\'' {
        ReadEscapedQuote(fields, cur);
      } else {
        assert head[1..] == "";
      }
      assert ReadAll(Reading(fields, Some(cur), Single), head) == Reading(fields, Some(cur + [s[0]]), Single);
      ReadEscaped(fields, cur + [s[0]], s[1..]);
      assert cur + [s[0]] + s[1..] == cur + s;
    }
  }

  lemma ReadQuoted(fields: seq<string>, s: string)
    ensures ReadAll(Reading(fields, None, Plain), Shq(s)) == Reading(fields, Some(s), Plain)
  {
    if IsSimple(s) {
      ReadSimple(fields, None, s);
      assert "" + s == s;
    } else {
      var start := Reading(fields, None, Plain);
      assert "" + "" == "";
      ReadOne(start, '\'');
      ReadEscaped(fields, "", s);
      assert "" + s == s;
      ReadAllConcat(start, "'", EscapeQuotes(s));
      ReadAllConcat(start, "'" + EscapeQuotes(s), "'");
      var inside := Reading(fields, Some(s), Single);
      ReadOne(inside, '\'');
    }
  }

  /** For every string, quoting it and letting a POSIX shell read it gives exactly that one field. */
  lemma QuotedIsOneField(s: string)
    ensures PosixFields(Shq(s)) == Some([s])
  {
    hide ReadAll, Shq;
    ReadQuoted([], s);
    assert [] + [s] == [s];
  }

  lemma ReadBlank(fields: seq<string>, cur: string)
    ensures ReadAll(Reading(fields, Some(cur), Plain), [' ']) == Reading(fields + [cur], None, Plain)
  {
    ReadOne(Reading(fields, Some(cur), Plain), ' ');
  }

  lemma ReadWordAndBlank(fields: seq<string>, word: string, rest: string)
    ensures ReadAll(Reading(fields, None, Plain), Shq(word) + [' '] + rest)
         == ReadAll(Reading(fields + [word], None, Plain), rest)
  {
    hide Shq, ReadChar, ReadAll;
    var start := Reading(fields, None, Plain);
    ReadAllConcat(start, Shq(word) + [' '], rest);
    ReadAllConcat(start, Shq(word), [' ']);
    ReadQuoted(fields, word);
    ReadBlank(fields, word);
  }

  lemma CommandTextStep(words: seq<string>)
    requires |words| > 1
    ensures CommandText(words) == Shq(words[0]) + [' '] + CommandText(words[1..])
  {
    assert ShqAll(words)[1..] == ShqAll(words[1..]);
  }

  lemma FieldsOfWord(fields: seq<string>, word: string)
    ensures Fields(Reading(fields, Some(word), Plain)) == Some(fields + [word])
  {
  }

  lemma CommandTextOne(word: string)
    ensures CommandText([word]) == Shq(word)
  {
  }

  lemma {:induction false} ReadCommandText(fields: seq<string>, words: seq<string>)
    requires words != []
    ensures Fields(ReadAll(Reading(fields, None, Plain), CommandText(words))) == Some(fields + words)
    decreases |words|
  {
    hide Shq, ReadAll, CommandText, Fields;
    if |words| == 1 {
      assert words == [words[0]];
      CommandTextOne(words[0]);
      ReadQuoted(fields, words[0]);
      FieldsOfWord(fields, words[0]);
      assert fields + [words[0]] == fields + words;
    } else {
      CommandTextStep(words);
      ReadWordAndBlank(fields, words[0], CommandText(words[1..]));
      ReadCommandText(fields + [words[0]], words[1..]);
      assert fields + [words[0]] + words[1..] == fields + words;
    }
  }

  /**
   * A shell given the printed command splits it into exactly the words that were printed. Splitting comes before a
   * shell looks for assignments and reserved words, which can only be a bare first word.
   */
  lemma CommandTextIsItsFields(words: seq<string>)
    requires words != []
    ensures PosixFields(CommandText(words)) == Some(words)
  {
    hide ReadAll, CommandText, Fields;
    ReadCommandText([], words);
    assert [] + words == words;
  }

  // ----- the tokenizer against the printer -----

  /** A word the tokenizer can read back from its quoted form. */
  predicate IsClean(word: string) { !HasMeta(word) && '\'' !in word }

  predicate AllClean(words: seq<string>) { forall w :: w in words ==> IsClean(w) }

  lemma HasMetaConcat(a: string, b: string)
    ensures HasMeta(a + b) <==> HasMeta(a) || HasMeta(b)
  {
    var s := a + b;
    if HasMeta(a) {
      var i :| 0 <= i < |a| && IsMeta(a[i]);
      assert IsMeta(s[i]);
    }
    if HasMeta(b) {
      var i :| 0 <= i < |b| && IsMeta(b[i]);
      assert IsMeta(s[|a| + i]);
    }
    if HasMeta(s) {
      var i :| 0 <= i < |s| && IsMeta(s[i]);
      assert i < |a| ==> IsMeta(a[i]);
      assert i >= |a| ==> IsMeta(b[i - |a|]);
    }
  }

  lemma {:induction false} HasMetaEscaped(s: string)
    ensures HasMeta(EscapeQuotes(s)) <==> HasMeta(s) || '\'' in s
  {
    if s != "" {
      var head := if s[0] == '\'' then "'\\''" else [s[0]];
      HasMetaEscaped(s[1..]);
      HasMetaConcat(head, EscapeQuotes(s[1..]));
      HasMetaConcat([s[0]], s[1..]);
      assert s == [s[0]] + s[1..];
      assert "'\\''"[1] == '\\';
      assert HasMeta(head) <==> IsMeta(s[0]) || s[0] == '\'' by {
        assert head[0] == s[0];
      }
      assert HasMeta([s[0]]) <==> IsMeta(s[0]) by {
        assert [s[0]][0] == s[0];
      }
    }
  }

  lemma HasMetaQuoted(s: string)
    ensures HasMeta(Shq(s)) <==> HasMeta(s) || '\'' in s
  {
    if !IsSimple(s) {
      HasMetaEscaped(s);
      HasMetaConcat("'", EscapeQuotes(s));
      HasMetaConcat("'" + EscapeQuotes(s), "'");
      hide IsSimple, EscapeQuotes;
      assert !HasMeta("'");
    }
  }

  lemma {:induction false} HasMetaCommandText(words: seq<string>)
    requires words != []
    ensures HasMeta(CommandText(words)) <==> !AllClean(words)
  {
    hide Shq, CommandText, HasMeta;
    HasMetaQuoted(words[0]);
    assert words[0] in words;
    if |words| == 1 {
      assert words == [words[0]];
      CommandTextOne(words[0]);
    } else {
      CommandTextStep(words);
      HasMetaCommandText(words[1..]);
      HasMetaConcat(Shq(words[0]) + [' '], CommandText(words[1..]));
      HasMetaConcat(Shq(words[0]), [' ']);
      NoMetaInBlank();
      assert forall w :: w in words <==> w == words[0] || w in words[1..];
    }
  }

  lemma NoMetaInBlank()
    ensures !HasMeta([' '])
  {
  }

  lemma {:induction false} FeedSimple(tokens: seq<string>, cur: string, inTok: bool, s: string)
    requires forall i :: 0 <= i < |s| ==> IsSimpleChar(s[i])
    requires s == "" ==> inTok
    ensures FeedAll(Scan(tokens, cur, inTok, None), s) == Scan(tokens, cur + s, true, None)
    decreases |s|
  {
    if s == "" {
      assert cur + s == cur;
    } else {
      assert IsSimpleChar(s[0]);
      FeedSimple(tokens, cur + [s[0]], true, s[1..]);
      assert cur + [s[0]] + s[1..] == cur + s;
    }
  }

  lemma {:induction false} FeedInsideQuotes(tokens: seq<string>, cur: string, s: string)
    requires '\'' !in s
    ensures EscapeQuotes(s) == s
    ensures FeedAll(Scan(tokens, cur, true, Some('\'')), s) == Scan(tokens, cur + s, true, Some('\''))
    decreases |s|
  {
    if s == "" {
      assert cur + s == cur;
    } else {
      assert s[0] in s;
      FeedInsideQuotes(tokens, cur + [s[0]], s[1..]);
      assert cur + [s[0]] + s[1..] == cur + s;
    }
  }

  lemma FeedOne(st: Scan, c: char)
    ensures FeedAll(st, [c]) == Feed(st, c)
  {
    assert [c][1..] == "";
    assert FeedAll(Feed(st, c), "") == Feed(st, c);
  }

  lemma FeedQuoted(tokens: seq<string>, word: string)
    requires IsClean(word)
    ensures FeedAll(Scan(tokens, "", false, None), Shq(word)) == Scan(tokens, word, true, None)
  {
    var start := Scan(tokens, "", false, None);
    assert "" + word == word;
    if IsSimple(word) {
      FeedSimple(tokens, "", false, word);
    } else {
      FeedInsideQuotes(tokens, "", word);
      FeedAllConcat(start, "'", word);
      FeedAllConcat(start, "'" + word, "'");
      FeedOne(start, '\'');
      FeedOne(Scan(tokens, word, true, Some('\'')), '\'');
    }
  }

  lemma FeedWordAndBlank(tokens: seq<string>, word: string, rest: string)
    requires IsClean(word)
    ensures FeedAll(Scan(tokens, "", false, None), Shq(word) + [' '] + rest)
         == FeedAll(Scan(tokens + [word], "", false, None), rest)
  {
    FeedOne(Scan(tokens, word, true, None), ' ');
    hide Shq, FeedAll;
    var start := Scan(tokens, "", false, None);
    FeedAllConcat(start, Shq(word) + [' '], rest);
    FeedAllConcat(start, Shq(word), [' ']);
    FeedQuoted(tokens, word);
  }

  lemma TokensOfWord(tokens: seq<string>, word: string)
    ensures Tokens(Scan(tokens, word, true, None)) == Some(tokens + [word])
  {
  }

  lemma {:induction false} FeedCommandText(tokens: seq<string>, words: seq<string>)
    requires words != [] && AllClean(words)
    ensures Tokens(FeedAll(Scan(tokens, "", false, None), CommandText(words))) == Some(tokens + words)
    decreases |words|
  {
    hide Shq, FeedAll, CommandText, Tokens, IsClean;
    assert words[0] in words;
    if |words| == 1 {
      assert words == [words[0]];
      CommandTextOne(words[0]);
      FeedQuoted(tokens, words[0]);
      TokensOfWord(tokens, words[0]);
      assert tokens + [words[0]] == tokens + words;
    } else {
      CommandTextStep(words);
      FeedWordAndBlank(tokens, words[0], CommandText(words[1..]));
      FeedCommandText(tokens + [words[0]], words[1..]);
      assert tokens + [words[0]] + words[1..] == tokens + words;
    }
  }

  /**
   * Printing then tokenizing is the identity exactly on word lists free of
   * metacharacters and single quotes; on every other list the tokenizer passes through.
   */
  lemma TokenizeOfCommandText(words: seq<string>)
    requires words != []
    ensures Tokenize(CommandText(words)) == if AllClean(words) then Some(words) else None
  {
    HasMetaCommandText(words);
    if AllClean(words) {
      FeedCommandText([], words);
      hide FeedAll, CommandText, HasMeta, IsClean;
      assert [] + words == words;
    }
  }

  // ----- the tokenizer against the shell -----

  /** The tokenizer and the shell have read the same prefix and agree about it. */
  ghost predicate Agree(st: Scan, r: Reader) {
    r.Rejected? || (
      && r.fields == st.tokens
      && (st.inTok ==> r.cur == Some(st.cur)) && (!st.inTok ==> r.cur == None && st.cur == "" && st.quote == None)
      && r.mode == (if st.quote == None then Plain else if st.quote == Some('\'') then Single else Double)
      && (st.quote.Some? ==> st.quote.value == '\'' || st.quote.value == '"'))
  }

  lemma AgreeStep(st: Scan, r: Reader, c: char)
    requires Agree(st, r) && !IsMeta(c) && (st.quote.None? && IsWhitespace(c) ==> c == ' ' || c == '\t')
    ensures Agree(Feed(st, c), ReadChar(r, c))
  {
    assert st.cur + [] == st.cur;
  }

  /** Outside quotes, `s` read from `st` on has no white space but blanks. */
  predicate BlankSeparated(st: Scan, s: string)
    decreases |s|
  {
    s == "" ||
    ((st.quote.None? && IsWhitespace(s[0]) ==> s[0] == ' ' || s[0] == '\t') && BlankSeparated(Feed(st, s[0]), s[1..]))
  }

  lemma {:induction false} AgreeAlong(st: Scan, r: Reader, s: string)
    requires Agree(st, r) && BlankSeparated(st, s)
    requires forall i :: 0 <= i < |s| ==> !IsMeta(s[i])
    ensures Agree(FeedAll(st, s), ReadAll(r, s))
    decreases |s|
  {
    hide Agree, Feed, ReadChar;
    if s != "" {
      AgreeStep(st, r, s[0]);
      AgreeAlong(Feed(st, s[0]), ReadChar(r, s[0]), s[1..]);
    }
  }

  /**
   * Whenever the tokenizer accepts a command whose words are separated by blanks, and the shell needs nothing but
   * unquoting to read it, both see the same words.
   */
  lemma TokenizeAgreesWithShell(cmd: string)
    requires Tokenize(cmd).Some? && PosixFields(cmd).Some?
    requires BlankSeparated(SCAN_START, cmd)
    ensures Tokenize(cmd) == PosixFields(cmd)
  {
    AgreeAlong(SCAN_START, READER_START, cmd);
  }

  // ----- exactly when they agree -----

  /** Outside quotes a shell does nothing with this character that the tokenizer does not do. */
  predicate IsPlain(st: Scan, c: char) {
    st.quote.None? ==>
      && (IsWhitespace(c) ==> c == ' ' || c == '\t')
      && c != '*' && c != '?' && c != '['
      && (c == '#' || c == '~' ==> st.inTok)
  }

  /**
   * The command is separated by blanks, and has no pattern character outside quotes and no word that starts with
   * an unquoted comment sign or tilde.
   */
  predicate ReadsPlainly(st: Scan, s: string)
    decreases |s|
  {
    s == "" || (IsPlain(st, s[0]) && ReadsPlainly(Feed(st, s[0]), s[1..]))
  }

  lemma PlainStep(st: Scan, r: Reader, c: char)
    requires Agree(st, r) && !r.Rejected? && !IsMeta(c)
    ensures IsPlain(st, c) ==> Agree(Feed(st, c), ReadChar(r, c)) && !ReadChar(r, c).Rejected?
    ensures !IsPlain(st, c) ==>
              || ReadChar(r, c).Rejected?
              || (st.quote.None? && IsWhitespace(c) && r.mode == Plain && ReadChar(r, c) == Append(r, [c], Plain))
  {
    assert st.cur + [] == st.cur;
  }

  function TotalLength(words: seq<string>): nat {
    if words == [] then 0 else TotalLength(words[..|words| - 1]) + |words[|words| - 1]|
  }

  lemma TotalLengthSnoc(words: seq<string>, word: string)
    ensures TotalLength(words + [word]) == TotalLength(words) + |word|
  {
    assert (words + [word])[..|words|] == words;
  }

  /** The shell has kept at least `extra` characters that the tokenizer took for separators. */
  ghost predicate Ahead(st: Scan, r: Reader, extra: nat) {
    r.Rejected? || (
      && (st.inTok || (st.cur == "" && st.quote == None))
      && (st.quote.Some? ==> r.cur.Some? && (st.quote.value == '\'' || st.quote.value == '"'))
      && r.mode == (if st.quote == None then Plain else if st.quote == Some('\'') then Single else Double)
      && TotalLength(r.fields) + (if r.cur.Some? then |r.cur.value| else 0)
         >= TotalLength(st.tokens) + |st.cur| + extra)
  }

  lemma AheadStep(st: Scan, r: Reader, extra: nat, c: char)
    requires Ahead(st, r, extra) && !IsMeta(c)
    ensures Ahead(Feed(st, c), ReadChar(r, c), extra)
  {
    hide TotalLength;
    TotalLengthSnoc(st.tokens, st.cur);
    if r.Reading? && r.cur.Some? {
      TotalLengthSnoc(r.fields, r.cur.value);
    }
  }

  lemma {:induction false} AheadAlong(st: Scan, r: Reader, extra: nat, s: string)
    requires Ahead(st, r, extra)
    requires forall i :: 0 <= i < |s| ==> !IsMeta(s[i])
    ensures Ahead(FeedAll(st, s), ReadAll(r, s), extra)
    decreases |s|
  {
    hide Ahead, Feed, ReadChar;
    if s != "" {
      AheadStep(st, r, extra, s[0]);
      AheadAlong(Feed(st, s[0]), ReadChar(r, s[0]), extra, s[1..]);
    }
  }

  /** From a point of agreement on, the two end in agreement, or the shell rejects or is ahead. */
  lemma {:induction false} PlainlyAlong(st: Scan, r: Reader, s: string)
    requires Agree(st, r) && !r.Rejected?
    requires forall i :: 0 <= i < |s| ==> !IsMeta(s[i])
    ensures ReadsPlainly(st, s) ==> Agree(FeedAll(st, s), ReadAll(r, s)) && !ReadAll(r, s).Rejected?
    ensures !ReadsPlainly(st, s) ==> Ahead(FeedAll(st, s), ReadAll(r, s), 1)
    decreases |s|
  {
    if s != "" {
      var c := s[0];
      PlainStep(st, r, c);
      if IsPlain(st, c) {
        hide Agree, Feed, ReadChar, Ahead;
        PlainlyAlong(Feed(st, c), ReadChar(r, c), s[1..]);
      } else {
        SeparatorKept(st, r, c);
        hide Agree, Feed, ReadChar, Ahead;
        AheadAlong(Feed(st, c), ReadChar(r, c), 1, s[1..]);
      }
    }
  }

  lemma SeparatorKept(st: Scan, r: Reader, c: char)
    requires Agree(st, r) && !r.Rejected? && !IsMeta(c) && !IsPlain(st, c)
    ensures Ahead(Feed(st, c), ReadChar(r, c), 1)
  {
    PlainStep(st, r, c);
    hide TotalLength;
    TotalLengthSnoc(st.tokens, st.cur);
  }

  lemma EndOfReading(st: Scan, r: Reader)
    requires Tokens(st).Some?
    ensures Agree(st, r) && !r.Rejected? ==> Fields(r) == Tokens(st)
    ensures Ahead(st, r, 1) ==> Fields(r) != Tokens(st)
  {
    hide TotalLength;
    TotalLengthSnoc(st.tokens, st.cur);
    if r.Reading? && r.cur.Some? {
      TotalLengthSnoc(r.fields, r.cur.value);
    }
  }

  /** An accepted command means to a shell what it means to the tokenizer exactly when it reads plainly. */
  lemma ShellReadsSameIff(cmd: string)
    requires Tokenize(cmd).Some?
    ensures PosixFields(cmd) == Tokenize(cmd) <==> ReadsPlainly(SCAN_START, cmd)
  {
    NoMetaInside(cmd);
    hide FeedAll, ReadAll, Tokens, Fields, ReadsPlainly;
    PlainlyAlong(SCAN_START, READER_START, cmd);
    EndOfReading(FeedAll(SCAN_START, cmd), ReadAll(READER_START, cmd));
  }

  lemma {:induction false} PlainlyMeansBlanks(st: Scan, s: string)
    requires ReadsPlainly(st, s)
    ensures BlankSeparated(st, s)
    decreases |s|
  {
    hide Feed;
    if s != "" {
      PlainlyMeansBlanks(Feed(st, s[0]), s[1..]);
    }
  }

  /** That is: its words are separated by blanks and a shell needs nothing but unquoting to read it. */
  lemma ReadsPlainlyIff(cmd: string)
    requires Tokenize(cmd).Some?
    ensures ReadsPlainly(SCAN_START, cmd) <==> PosixFields(cmd).Some? && BlankSeparated(SCAN_START, cmd)
  {
    hide Tokenize, PosixFields, ReadsPlainly, BlankSeparated;
    ShellReadsSameIff(cmd);
    if ReadsPlainly(SCAN_START, cmd) {
      PlainlyMeansBlanks(SCAN_START, cmd);
    }
    if PosixFields(cmd).Some? && BlankSeparated(SCAN_START, cmd) {
      TokenizeAgreesWithShell(cmd);
    }
  }

  lemma NoMetaInside(cmd: string)
    requires Tokenize(cmd).Some?
    ensures forall i :: 0 <= i < |cmd| ==> !IsMeta(cmd[i])
  {
  }
}
