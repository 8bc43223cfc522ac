/** What the rewriter promises: its output is final, and it still asks for the same thing. */
module RewriteLaws {
  import opened Results
  import opened Text
  import opened ShellText
  import opened Rewriter
  import opened Planner

  // ----- the emitted arguments, read back -----

  lemma {:induction false} FlagCharsConcat(a: seq<string>, b: seq<string>)
    ensures FlagChars(a + b) == FlagChars(a) + FlagChars(b)
  {
    hide IsFlagArg, Chars;
    if a == [] {
      assert a + b == b;
    } else {
      assert (a + b)[1..] == a[1..] + b;
      FlagCharsConcat(a[1..], b);
    }
  }

  lemma {:induction false} PositionalsConcat(a: seq<string>, b: seq<string>)
    ensures Positionals(a + b) == Positionals(a) + Positionals(b)
  {
    hide IsFlagArg;
    if a == [] {
      assert a + b == b;
    } else {
      assert (a + b)[1..] == a[1..] + b;
      PositionalsConcat(a[1..], b);
    }
  }

  lemma OneFlagWord(b: bool, word: string, c: char)
    requires word == ['-', c]
    ensures FlagChars(When(b, word)) == if b then {c} else {}
    ensures Positionals(When(b, word)) == []
  {
    assert [word][1..] == [];
    assert word[1..] == [c] && [c][1..] == "";
    assert Chars([c]) == {c};
  }

  lemma LongFlagWord(b: bool, word: string)
    requires |word| > 2 && word[0] == '-' && word[1] == '-'
    ensures b ==> '-' in FlagChars(When(b, word))
    ensures !b ==> FlagChars(When(b, word)) == {}
    ensures Positionals(When(b, word)) == []
  {
    assert [word][1..] == [];
  }

  /** What the short options of the emitted command ask for. */
  function ShortChars(o: GrepOpts): set<char> {
    (if o.ignoreCase then {'i'} else {}) + (if o.word then {'w'} else {}) + (if o.fixed then {'F'} else {})
    + (if o.lineNumbers then {'n'} else {}) + (if o.filesOnly then {'l'} else {}) + (if o.count then {'c'} else {})
  }

  function ShortWords(o: GrepOpts): seq<string> {
    When(o.ignoreCase, "-i") + When(o.word, "-w") + When(o.fixed, "-F") + When(o.lineNumbers, "-n")
    + When(o.filesOnly, "-l") + When(o.count, "-c")
  }

  lemma ShortWordsMeaning(o: GrepOpts)
    ensures FlagChars(ShortWords(o)) == ShortChars(o)
    ensures Positionals(ShortWords(o)) == []
  {
    var i, w, f, n, l, c := When(o.ignoreCase, "-i"), When(o.word, "-w"), When(o.fixed, "-F"),
                            When(o.lineNumbers, "-n"), When(o.filesOnly, "-l"), When(o.count, "-c");
    OneFlagWord(o.ignoreCase, "-i", 'i');
    OneFlagWord(o.word, "-w", 'w');
    OneFlagWord(o.fixed, "-F", 'F');
    OneFlagWord(o.lineNumbers, "-n", 'n');
    OneFlagWord(o.filesOnly, "-l", 'l');
    OneFlagWord(o.count, "-c", 'c');
    hide FlagChars, Positionals, When;
    FlagCharsConcat(i, w);
    PositionalsConcat(i, w);
    FlagCharsConcat(i + w, f);
    PositionalsConcat(i + w, f);
    FlagCharsConcat(i + w + f, n);
    PositionalsConcat(i + w + f, n);
    FlagCharsConcat(i + w + f + n, l);
    PositionalsConcat(i + w + f + n, l);
    FlagCharsConcat(i + w + f + n + l, c);
    PositionalsConcat(i + w + f + n + l, c);
  }

  lemma FlagWordsMeaning(o: GrepOpts)
    ensures Positionals(FlagWords(o)) == []
    ensures !o.withFilename && !o.noFilename ==> FlagChars(FlagWords(o)) == ShortChars(o)
    ensures o.withFilename || o.noFilename ==> '-' in FlagChars(FlagWords(o))
  {
    var short, with, no := ShortWords(o), When(o.withFilename, "--with-filename"), When(o.noFilename, "--no-filename");
    assert FlagWords(o) == short + with + no;
    ShortWordsMeaning(o);
    LongFlagWord(o.withFilename, "--with-filename");
    LongFlagWord(o.noFilename, "--no-filename");
    hide FlagChars, Positionals, When, ShortWords, ShortChars;
    FlagCharsConcat(short, with);
    PositionalsConcat(short, with);
    FlagCharsConcat(short + with, no);
    PositionalsConcat(short + with, no);
  }

  lemma {:induction false} PositionalsArePlain(args: seq<string>)
    ensures forall p :: p in Positionals(args) ==> !IsFlagArg(p)
  {
    if args != [] {
      PositionalsArePlain(args[1..]);
    }
  }

  lemma {:induction false} PlainWords(words: seq<string>)
    requires forall w :: w in words ==> !IsFlagArg(w)
    ensures FlagChars(words) == {} && Positionals(words) == words
  {
    if words != [] {
      PlainWords(words[1..]);
    }
  }

  /** The flag parser on the emitted rg arguments: long options stop it, otherwise it finds the same request. */
  lemma ReparseOfRgWords(o: GrepOpts, plain: seq<string>)
    requires forall w :: w in plain ==> !IsFlagArg(w)
    ensures ShortFlags(FlagWords(o) + plain, false) ==
            if o.withFilename || o.noFilename then None else Some(OptsOf(ShortChars(o), plain))
  {
    hide FlagChars, Positionals, FlagWords, ShortFlags, ShortChars, IsFlagArg, IsKnownFlag;
    var args := FlagWords(o) + plain;
    FlagWordsMeaning(o);
    PlainWords(plain);
    FlagCharsConcat(FlagWords(o), plain);
    PositionalsConcat(FlagWords(o), plain);
    ShortFlagsMeaning(args, false);
    assert [] + plain == plain;
    if o.withFilename || o.noFilename {
      assert '-' in FlagChars(args);
      DashIsUnknown();
    } else {
      assert FlagChars(args) == ShortChars(o) + {} == ShortChars(o);
      ShortCharsAreKnown(o);
    }
  }

  lemma DashIsUnknown()
    ensures !IsKnownFlag('-', false)
  {
  }

  lemma ShortCharsAreKnown(o: GrepOpts)
    ensures AllKnown(ShortChars(o), false)
  {
  }

  // ----- the result is never rewritten again -----

  /** Re-planning a printed command either passes through or plans its words. */
  lemma PlanOfCommandText(words: seq<string>, env: Env)
    requires words != []
    ensures Plan(CommandText(words), env) == None || Plan(CommandText(words), env) == PlanWords(words, env)
  {
    hide Tokenize, CommandText, PlanWords;
    TokenizeOfCommandText(words);
  }

  lemma CrabccIsFinal(words: seq<string>, env: Env)
    requires words != [] && words[0] == "crabcc"
    ensures Plan(CommandText(words), env) == None
  {
    hide CommandText, Tokenize, Plan;
    PlanOfCommandText(words, env);
  }

  lemma RgFilesIsFinal(words: seq<string>, env: Env)
    requires |words| >= 2 && words[0] == "rg" && words[1] == "--files"
    ensures Plan(CommandText(words), env) == None
  {
    var args := words[1..];
    assert Chars(args[0][1..]) == Chars("-files") && '-' in Chars("-files") by {
      assert "--files"[1..] == "-files";
    }
    assert '-' in FlagChars(args);
    ShortFlagsMeaning(args, false);
    assert PlanRg(args, env) == None by {
      hide FlagChars, ShortFlags;
    }
    hide CommandText, Tokenize, Plan, PlanRg;
    PlanOfCommandText(words, env);
  }

  lemma RgPlanOfSwap(o: GrepOpts, pattern: string, paths: seq<string>, env: Env)
    requires forall w :: w in [pattern] + paths ==> !IsFlagArg(w)
    requires !UpgradeApplies(o, pattern, paths, env.isSymbol)
    ensures PlanRg(FlagWords(o) + ([pattern] + paths), env) == None
  {
    var plain := [pattern] + paths;
    ReparseOfRgWords(o, plain);
    assert plain[0] == pattern && plain[1..] == paths;
    assert OptsOf(ShortChars(o), plain).ignoreCase == o.ignoreCase;
    assert OptsOf(ShortChars(o), plain).count == o.count;
    hide FlagWords, ShortFlags, ShortChars, IsBareIdent, IsFlagArg;
  }

  /** The emitted rg command meets the same test the grep command failed. */
  lemma RgSwapIsFinal(o: GrepOpts, pattern: string, paths: seq<string>, env: Env)
    requires forall w :: w in [pattern] + paths ==> !IsFlagArg(w)
    requires !UpgradeApplies(o, pattern, paths, env.isSymbol)
    ensures Plan(RgSwapOf(o, pattern, paths).inner, env) == None
  {
    hide FlagWords, CommandText, Plan, PlanRg, UpgradeApplies, IsFlagArg;
    var words := RgWords(o, pattern, paths);
    RgPlanOfSwap(o, pattern, paths, env);
    assert words[1..] == FlagWords(o) + ([pattern] + paths);
    PlanOfCommandText(words, env);
  }

  lemma JqIsFinal(file: string, env: Env)
    ensures Plan(CommandText(["jq", "-c", ".", file]) + " || " + CommandText(["cat", file]), env) == None
  {
    var left, right := CommandText(["jq", "-c", ".", file]), CommandText(["cat", file]);
    hide CommandText;
    assert HasMeta(" || ") by {
      assert IsMeta(" || "[1]);
    }
    hide HasMeta;
    HasMetaConcat(left, " || ");
    HasMetaConcat(left + " || ", right);
  }

  lemma PlanGrepIsFinal(args: seq<string>, env: Env, env': Env)
    requires PlanGrep(args, env).Some? && env'.isSymbol == env.isSymbol
    ensures Plan(PlanGrep(args, env).value.inner, env') == None
  {
    ShortFlagsMeaning(args, true);
    var o := ShortFlags(args, true).value;
    var pattern, paths := o.positionals[0], o.positionals[1..];
    assert o.positionals == [pattern] + paths;
    PositionalsArePlain(args);
    hide ShortFlags, FlagChars, Positionals, OptsOf, Plan, CommandText, RgWords, FlagWords, AllKnown;
    if UpgradeApplies(o, pattern, paths, env.isSymbol) {
      CrabccIsFinal(["crabcc", "lookup", "refs", pattern] + (if o.filesOnly then ["--files-only"] else []), env');
    } else {
      RgSwapIsFinal(o, pattern, paths, env');
    }
  }

  lemma PlanRgIsFinal(args: seq<string>, env: Env, env': Env)
    requires PlanRg(args, env).Some?
    ensures Plan(PlanRg(args, env).value.inner, env') == None
  {
    hide ShortFlags, Plan, CommandText;
    var o := ShortFlags(args, false).value;
    CrabccIsFinal(["crabcc", "lookup", "refs", o.positionals[0]] +
        (if o.filesOnly then ["--files-only"] else []), env');
  }

  lemma PlanFindIsFinal(args: seq<string>, env': Env)
    requires PlanFind(args).Some?
    ensures Plan(PlanFind(args).value.inner, env') == None
  {
    hide Plan, CommandText, Items, Names, Paths;
    var items := Items(args).value;
    var name := Names(items)[0];
    RgFilesIsFinal(["rg", "--files", if name.anyCase then "--iglob" else "-g", name.glob] + Paths(items), env');
  }

  lemma PlanCatIsFinal(args: seq<string>, env: Env, env': Env)
    requires PlanCat(args, env).Some?
    ensures Plan(PlanCat(args, env).value.inner, env') == None
  {
    hide Plan, CommandText, IsSourceFile;
    var file := args[0];
    if EndsWith(file, ".json") {
      JqIsFinal(file, env');
    } else {
      CrabccIsFinal(["crabcc", "read", match env.resolve(file) case None => file case Some(path) => path], env');
    }
  }

  lemma RunWrapIsFinal(words: seq<string>, rule: string, env': Env)
    requires words != []
    ensures Plan(RunWrap(words, rule).inner, env') == None
  {
    hide Plan, CommandText;
    CrabccIsFinal(["crabcc", "run", "--timeout", RUN_TIMEOUT_SECS, "--"] + words, env');
  }

  /**
   * Rewriting is a fixpoint: whatever the command and whatever the disk looks like
   * before and after, a rewritten command is never rewritten again, as long as the
   * same names are indexed symbols.
   */
  lemma RewritingIsFinal(cmd: string, env: Env, env': Env)
    requires Plan(cmd, env).Some? && env'.isSymbol == env.isSymbol
    ensures Plan(Plan(cmd, env).value.inner, env') == None
  {
    var words := Tokenize(cmd).value;
    var prog, rest := words[0], words[1..];
    assert Plan(cmd, env) == PlanWords(words, env);
    hide Plan, Tokenize, PlanGrep, PlanRg, PlanFind, PlanCat, RunWrap;
    if prog == "grep" {
      PlanGrepIsFinal(rest, env, env');
    } else if prog == "rg" {
      PlanRgIsFinal(rest, env, env');
    } else if prog == "find" {
      PlanFindIsFinal(rest, env');
    } else if prog == "cat" || prog == "less" || prog == "more" {
      PlanCatIsFinal(rest, env, env');
    } else if prog == "tail" {
      RunWrapIsFinal(words, "tail-f->crabcc-run", env');
    } else if prog == "journalctl" {
      RunWrapIsFinal(words, "journalctl-f->crabcc-run", env');
    } else {
      RunWrapIsFinal(words, "watch->crabcc-run", env');
    }
  }

  // ----- the request survives -----

  /** What a line search asks for, whichever program runs it. */
  datatype Request = Request(
    pattern: string, paths: seq<string>,
    ignoreCase: bool, word: bool, fixed: bool, lineNumbers: bool, filesOnly: bool, count: bool,
    fileNames: Option<bool>)

  /** The characters given as flags, in order. */
  function FlagText(args: seq<string>): string {
    if args == [] then "" else (if IsFlagArg(args[0]) then args[0][1..] else "") + FlagText(args[1..])
  }

  /** Of `-H` and `-h` grep obeys the last. */
  function LastNameFlag(flags: string): Option<bool> {
    if flags == "" then None
    else if flags[|flags| - 1] == 'H' then Some(true)
    else if flags[|flags| - 1] == 'h' then Some(false)
    else LastNameFlag(flags[..|flags| - 1])
  }

  /** How grep reads its arguments, for the flags the rewriter knows; `-r -R -I -s` ask for nothing more here. */
  function ReadGrep(args: seq<string>): Option<Request> {
    var flags := FlagChars(args);
    if !AllKnown(flags, true) || Positionals(args) == [] then None
    else Some(Request(Positionals(args)[0], Positionals(args)[1..],
                      'i' in flags, 'w' in flags, 'F' in flags, 'n' in flags, 'l' in flags, 'c' in flags,
                      LastNameFlag(FlagText(args))))
  }

  /** The two long options of ripgrep that the rewriter emits. */
  predicate IsLongWord(a: string) { a == "--with-filename" || a == "--no-filename" }

  function WithoutLongWords(args: seq<string>): seq<string> {
    if args == [] then []
    else (if IsLongWord(args[0]) then [] else [args[0]]) + WithoutLongWords(args[1..])
  }

  /** Of its two long options ripgrep obeys the last, too. */
  function LastNameWord(args: seq<string>): Option<bool> {
    if args == [] then None
    else if args[|args| - 1] == "--with-filename" then Some(true)
    else if args[|args| - 1] == "--no-filename" then Some(false)
    else LastNameWord(args[..|args| - 1])
  }

  /** How ripgrep reads its arguments: its short options mean what grep's do, but file names are spelled out. */
  function ReadRg(args: seq<string>): Option<Request> {
    var short := WithoutLongWords(args);
    var flags := FlagChars(short);
    if !(flags <= {'i', 'w', 'F', 'n', 'l', 'c'}) || Positionals(short) == [] then None
    else Some(Request(Positionals(short)[0], Positionals(short)[1..],
                      'i' in flags, 'w' in flags, 'F' in flags, 'n' in flags, 'l' in flags, 'c' in flags,
                      LastNameWord(args)))
  }

  lemma {:induction false} WithoutLongWordsConcat(a: seq<string>, b: seq<string>)
    ensures WithoutLongWords(a + b) == WithoutLongWords(a) + WithoutLongWords(b)
  {
    hide IsLongWord;
    if a == [] {
      assert a + b == b;
    } else {
      assert (a + b)[1..] == a[1..] + b;
      WithoutLongWordsConcat(a[1..], b);
    }
  }

  lemma {:induction false} NoLongWords(words: seq<string>)
    requires forall w :: w in words ==> !IsLongWord(w)
    ensures WithoutLongWords(words) == words
  {
    if words != [] {
      NoLongWords(words[1..]);
    }
  }

  lemma LongWordsAreDropped(b: bool, word: string)
    requires IsLongWord(word)
    ensures WithoutLongWords(When(b, word)) == []
  {
    assert [word][1..] == [];
  }

  lemma ShortWordsAreShort(o: GrepOpts)
    ensures forall w :: w in ShortWords(o) ==> !IsLongWord(w)
  {
    assert forall b, w: string, x :: x in When(b, w) ==> x == w;
    hide When;
  }

  lemma FlagWordsSplit(o: GrepOpts)
    ensures FlagWords(o) ==
            ShortWords(o) + When(o.withFilename, "--with-filename") + When(o.noFilename, "--no-filename")
  {
  }

  lemma DropLongWords(o: GrepOpts, plain: seq<string>)
    requires forall w :: w in plain ==> !IsLongWord(w)
    ensures WithoutLongWords(FlagWords(o) + plain) == ShortWords(o) + plain
  {
    hide When, ShortWords, WithoutLongWords, FlagWords;
    var short, with, no := ShortWords(o), When(o.withFilename, "--with-filename"), When(o.noFilename, "--no-filename");
    LongWordsAreDropped(o.withFilename, "--with-filename");
    LongWordsAreDropped(o.noFilename, "--no-filename");
    hide IsLongWord;
    FlagWordsSplit(o);
    ShortWordsAreShort(o);
    NoLongWords(plain);
    NoLongWords(short);
    WithoutLongWordsConcat(short + with + no, plain);
    WithoutLongWordsConcat(short + with, no);
    WithoutLongWordsConcat(short, with);
    assert short + [] + [] + plain == short + plain;
  }

  lemma ShortPartMeaning(o: GrepOpts, plain: seq<string>)
    requires forall w :: w in plain ==> !IsFlagArg(w)
    ensures FlagChars(ShortWords(o) + plain) == ShortChars(o)
    ensures Positionals(ShortWords(o) + plain) == plain
  {
    hide FlagChars, Positionals, ShortWords, ShortChars, IsFlagArg;
    ShortWordsMeaning(o);
    PlainWords(plain);
    FlagCharsConcat(ShortWords(o), plain);
    PositionalsConcat(ShortWords(o), plain);
    assert [] + plain == plain;
  }

  lemma ShortCharsMeaning(o: GrepOpts)
    ensures ShortChars(o) <= {'i', 'w', 'F', 'n', 'l', 'c'}
    ensures ('i' in ShortChars(o) <==> o.ignoreCase) && ('w' in ShortChars(o) <==> o.word)
    ensures ('F' in ShortChars(o) <==> o.fixed) && ('n' in ShortChars(o) <==> o.lineNumbers)
    ensures ('l' in ShortChars(o) <==> o.filesOnly) && ('c' in ShortChars(o) <==> o.count)
  {
  }

  /** The request that a set of parsed options stands for. */
  function RequestOf(o: GrepOpts, plain: seq<string>): Request
    requires plain != []
  {
    Request(plain[0], plain[1..], o.ignoreCase, o.word, o.fixed, o.lineNumbers, o.filesOnly, o.count,
            if o.noFilename then Some(false) else if o.withFilename then Some(true) else None)
  }

  /** The words after `rg`, read by ripgrep. */
  lemma ReadRgWords(o: GrepOpts, plain: seq<string>)
    requires plain != [] && forall w :: w in plain ==> !IsFlagArg(w)
    ensures ReadRg(FlagWords(o) + plain) == Some(RequestOf(o, plain))
  {
    LongWordsIn(o, plain);
    hide FlagChars, Positionals, ShortWords, WithoutLongWords, FlagWords, IsFlagArg, ShortChars, IsLongWord;
    DropLongWords(o, plain);
    ShortPartMeaning(o, plain);
    ShortCharsMeaning(o);
  }

  lemma LongWordsIn(o: GrepOpts, plain: seq<string>)
    requires forall w :: w in plain ==> !IsFlagArg(w)
    ensures LastNameWord(FlagWords(o) + plain) ==
            if o.noFilename then Some(false) else if o.withFilename then Some(true) else None
    ensures forall w :: w in plain ==> !IsLongWord(w)
  {
    var with, no := When(o.withFilename, "--with-filename"), When(o.noFilename, "--no-filename");
    FlagWordsSplit(o);
    ShortWordsAreShort(o);
    assert IsFlagArg("--with-filename") && IsFlagArg("--no-filename");
    hide IsFlagArg, FlagWords, ShortWords;
    NamesBeforePlain(ShortWords(o) + with + no, plain);
    if o.noFilename {
      NameWordAtEnd(ShortWords(o) + with, "--no-filename");
    } else {
      assert ShortWords(o) + with + no == ShortWords(o) + with;
      if o.withFilename {
        NameWordAtEnd(ShortWords(o), "--with-filename");
      } else {
        NamesBeforePlain([], ShortWords(o));
        assert [] + ShortWords(o) == ShortWords(o) + with;
      }
    }
  }

  lemma NameWordAtEnd(front: seq<string>, word: string)
    requires IsLongWord(word)
    ensures LastNameWord(front + [word]) == Some(word == "--with-filename")
  {
    assert "--with-filename" != "--no-filename" by {
      assert "--with-filename"[2] != "--no-filename"[2];
    }
  }

  /** What is no long option does not matter. */
  lemma {:induction false} NamesBeforePlain(front: seq<string>, plain: seq<string>)
    requires forall w :: w in plain ==> !IsLongWord(w)
    ensures LastNameWord(front + plain) == LastNameWord(front)
  {
    if plain == [] {
      assert front + plain == front;
    } else {
      var n := |plain| - 1;
      assert plain[n] in plain;
      assert (front + plain)[..|front| + n] == front + plain[..n];
      NamesBeforePlain(front, plain[..n]);
    }
  }

  lemma {:induction false} CharsConcat(a: string, b: string)
    ensures Chars(a + b) == Chars(a) + Chars(b)
  {
    if a == "" {
      assert a + b == b;
    } else {
      assert (a + b)[1..] == a[1..] + b;
      CharsConcat(a[1..], b);
    }
  }

  lemma {:induction false} FlagTextChars(args: seq<string>)
    ensures Chars(FlagText(args)) == FlagChars(args)
  {
    hide Chars;
    if args == [] {
      assert Chars("") == {} by {
        CharsOfNothing();
      }
    } else {
      FlagTextChars(args[1..]);
      CharsOfNothing();
      CharsConcat(if IsFlagArg(args[0]) then args[0][1..] else "", FlagText(args[1..]));
    }
  }

  lemma CharsOfNothing()
    ensures Chars("") == {}
  {
  }

  lemma {:induction false} LastNameFlagIn(flags: string)
    ensures LastNameFlag(flags) == Some(true) ==> 'H' in Chars(flags)
    ensures LastNameFlag(flags) == Some(false) ==> 'h' in Chars(flags)
    ensures LastNameFlag(flags) == None ==> 'H' !in Chars(flags) && 'h' !in Chars(flags)
  {
    if flags == "" {
    } else {
      var front, last := flags[..|flags| - 1], [flags[|flags| - 1]];
      LastNameFlagIn(front);
      CharsConcat(front, last);
      assert flags == front + last;
      assert last[1..] == "" && Chars(last) == {last[0]};
    }
  }

  /** grep is told to leave file names out and then, last, to print them. */
  predicate NamesFlipped(args: seq<string>) {
    'h' in FlagChars(args) && LastNameFlag(FlagText(args)) == Some(true)
  }

  /** What the parsed options stand for is what grep was asked for, file names apart where the flags were flipped. */
  lemma ReadGrepMeaning(args: seq<string>)
    requires ShortFlags(args, true).Some? && ShortFlags(args, true).value.positionals != []
    ensures var o := ShortFlags(args, true).value; var asked := RequestOf(o, o.positionals);
            && ReadGrep(args).Some?
            && asked == ReadGrep(args).value.(fileNames := asked.fileNames)
            && (asked.fileNames == ReadGrep(args).value.fileNames <==> !NamesFlipped(args))
            && (NamesFlipped(args) ==> asked.fileNames == Some(false))
  {
    hide FlagChars, Positionals, ShortFlags, FlagText, LastNameFlag;
    ShortFlagsMeaning(args, true);
    FlagTextChars(args);
    LastNameFlagIn(FlagText(args));
    hide Chars;
    var o := ShortFlags(args, true).value;
    assert o == OptsOf(FlagChars(args), Positionals(args));
    var asked, read := RequestOf(o, o.positionals), ReadGrep(args);
    assert read.Some?;
    assert asked == read.value.(fileNames := asked.fileNames);
    match LastNameFlag(FlagText(args))
    case None =>
    case Some(with) =>
      assert with == true || with == false;
  }

  /** When `plan_grep` swaps engines, what it prints is the argument vector of `rg_swap`. */
  lemma GrepSwapText(args: seq<string>, env: Env)
    requires PlanGrep(args, env).Some? && PlanGrep(args, env).value.rule == "grep->rg"
    ensures ShortFlags(args, true).Some? && ShortFlags(args, true).value.positionals != []
    ensures var o := ShortFlags(args, true).value;
            PlanGrep(args, env).value.inner == CommandText(["rg"] + (FlagWords(o) + o.positionals))
  {
    hide ShortFlags, CommandText, FlagWords, IsBareIdent;
    var o := ShortFlags(args, true).value;
    var pattern, paths := o.positionals[0], o.positionals[1..];
    assert o.positionals == [pattern] + paths;
    assert "grep->crabcc-refs" != "grep->rg" by {
      assert |"grep->crabcc-refs"| != |"grep->rg"|;
    }
    assert RgWords(o, pattern, paths) == ["rg"] + (FlagWords(o) + o.positionals);
  }

  /**
   * The grep-to-rg translation keeps the request: a POSIX shell given the emitted text
   * runs rg with arguments that ask for the same pattern, the same paths in the same
   * order and the same options as the grep arguments did - and for file names exactly
   * unless grep was told to leave them out and then, last, to print them.
   */
  lemma GrepRequestSurvives(args: seq<string>, env: Env)
    requires PlanGrep(args, env).Some? && PlanGrep(args, env).value.rule == "grep->rg"
    ensures var fields := PosixFields(PlanGrep(args, env).value.inner);
            && fields.Some? && |fields.value| >= 1 && fields.value[0] == "rg"
            && ReadGrep(args).Some? && ReadRg(fields.value[1..]).Some?
            && var asked, got := ReadGrep(args).value, ReadRg(fields.value[1..]).value;
               && got == asked.(fileNames := got.fileNames)
               && (got == asked <==> !NamesFlipped(args))
               && (NamesFlipped(args) ==> got.fileNames == Some(false))
  {
    hide ShortFlags, CommandText, PosixFields, FlagWords, PlanGrep, FlagChars, Positionals;
    hide ReadGrep, ReadRg, NamesFlipped;
    GrepSwapText(args, env);
    ReadGrepMeaning(args);
    ShortFlagsMeaning(args, true);
    PositionalsArePlain(args);
    var o := ShortFlags(args, true).value;
    var words := ["rg"] + (FlagWords(o) + o.positionals);
    CommandTextIsItsFields(words);
    assert words[1..] == FlagWords(o) + o.positionals;
    ReadRgWords(o, o.positionals);
  }

  /** A wrapped follow still runs the very command it was given. */
  lemma WrapKeepsCommand(words: seq<string>, rule: string)
    requires words != []
    ensures PosixFields(RunWrap(words, rule).inner) == Some(["crabcc", "run", "--timeout", "30", "--"] + words)
  {
    hide CommandText, PosixFields;
    CommandTextIsItsFields(["crabcc", "run", "--timeout", "30", "--"] + words);
  }

  // ----- find -----

  /** Paths are what does not start with a dash. */
  predicate Printable(items: seq<FindItem>) {
    forall i :: 0 <= i < |items| && items[i].Path? ==> !StartsWith(items[i].path, "-")
  }

  lemma {:induction false} ItemsOfPrint(items: seq<FindItem>)
    requires Printable(items)
    ensures Items(Print(items)) == Some(items)
  {
    if items != [] {
      ItemsOfPrint(items[1..]);
      var args, rest := Print(items), Print(items[1..]);
      assert items == [items[0]] + items[1..];
      match items[0]
      case Path(p) =>
        assert args[0] == p && args[1..] == rest;
        assert StartsWith("-name", "-") && StartsWith("-iname", "-") && StartsWith("-type", "-");
      case Name(glob, anyCase) =>
        assert args[1] == glob && args[2..] == rest;
        assert "-name" != "-iname" by {
          assert |"-name"| != |"-iname"|;
        }
      case TypeF =>
        assert args[1] == "f" && args[2..] == rest;
    }
  }

  lemma {:induction false} PrintOfItems(args: seq<string>)
    requires Items(args).Some?
    ensures Printable(Items(args).value) && Print(Items(args).value) == args
    decreases |args|
  {
    if args != [] {
      var items := Items(args).value;
      var width := if items[0].Path? then 1 else 2;
      PrintOfItems(args[width..]);
      assert items[1..] == Items(args[width..]).value;
      assert args == args[..width] + args[width..];
      assert forall i :: 0 < i < |items| ==> items[i] == items[1..][i - 1];
    }
  }

  /** The shape of `find` command that is swapped: one name test, some `-type f`, and paths, in any order. */
  ghost predicate IsFindShape(args: seq<string>, items: seq<FindItem>) {
    Printable(items) && Print(items) == args && |Names(items)| == 1 && TypeF in items
  }

  /**
   * A `find` command is swapped exactly when it has that shape; a POSIX shell given the
   * result runs `rg --files` with the same glob, the same case rule and the same paths.
   */
  lemma FindRequestSurvives(args: seq<string>)
    ensures PlanFind(args).Some? <==> exists items :: IsFindShape(args, items)
    ensures forall items {:trigger IsFindShape(args, items)} :: IsFindShape(args, items) && PlanFind(args).Some? ==>
              && Names(items)[0].Name?
              && PosixFields(PlanFind(args).value.inner) ==
                 Some(["rg", "--files", if Names(items)[0].anyCase then "--iglob" else "-g", Names(items)[0].glob] +
                     Paths(items))
  {
    hide CommandText, PosixFields;
    if PlanFind(args).Some? {
      PrintOfItems(args);
      assert IsFindShape(args, Items(args).value);
    }
    forall items | IsFindShape(args, items)
      ensures Items(args) == Some(items) && PlanFind(args).Some?
    {
      ItemsOfPrint(items);
      AllNamesAreNames(items);
    }
    if PlanFind(args).Some? {
      var items := Items(args).value;
      var name := Names(items)[0];
      CommandTextIsItsFields(["rg", "--files", if name.anyCase then "--iglob" else "-g", name.glob] + Paths(items));
    }
  }
}
