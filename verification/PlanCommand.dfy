/** The planner as its code runs it: the same request, in a form that is never rewritten again. */
module PlanCommand {
  import opened Results
  import opened Text
  import opened ShellText
  import opened Rewriter
  import opened Planner
  import opened PlanRules
  import opened RewriteLaws

  /** No disk on which the same names are symbols makes the planner touch the text again. */
  ghost predicate IsFinal(inner: string, env: Env) {
    forall env': Env :: env'.isSymbol == env.isSymbol ==> Plan(inner, env') == None
  }

  /** A shell given the text runs rg, which is asked for what grep was asked for. */
  ghost predicate SearchesLikeGrep(args: seq<string>, inner: string) {
    var fields := PosixFields(inner);
    && fields.Some? && |fields.value| >= 1 && fields.value[0] == "rg"
    && ReadGrep(args).Some? && ReadRg(fields.value[1..]) == ReadGrep(args)
  }

  /**
   * The search was for one symbol with its case, as lines and in the whole repository; a shell given the text looks
   * its references up, as files only if files were asked for.
   */
  ghost predicate LooksUpPattern(args: seq<string>, extra: string, inner: string, env: Env) {
    && IsSymbolSearch(args, extra, env)
    && PosixFields(inner) ==
         Some(["crabcc", "lookup", "refs", Positionals(args)[0]] + When('l' in FlagChars(args), "--files-only"))
  }

  /** A shell given the text lists the files that find was asked for. */
  ghost predicate ListsLikeFind(args: seq<string>, inner: string) {
    exists items :: IsFindShape(args, items) && Names(items)[0].Name? && PosixFields(inner) ==
      Some(["rg", "--files", if Names(items)[0].anyCase then "--iglob" else "-g", Names(items)[0].glob] + Paths(items))
  }

  /** A shell given the text runs the very command, wrapped. */
  ghost predicate RunsWrapped(words: seq<string>, inner: string) {
    PosixFields(inner) == Some(["crabcc", "run", "--timeout", "30", "--"] + words)
  }

  /** A shell given the text reads the one file where it was resolved to; JSON is minified, or else printed. */
  ghost predicate ReadsFile(args: seq<string>, inner: string, env: Env) {
    && |args| == 1
    && var file := args[0];
       if EndsWith(file, ".json") then
         exists first, second ::
           && inner == first + " || " + second
           && PosixFields(first) == Some(["jq", "-c", ".", file]) && PosixFields(second) == Some(["cat", file])
       else
         var target := match env.resolve(file) case None => file case Some(path) => path;
         PosixFields(inner) == Some(["crabcc", "read", target])
  }

  lemma CatReadsFile(args: seq<string>, env: Env)
    requires PlanCat(args, env).Some?
    ensures ReadsFile(args, PlanCat(args, env).value.inner, env)
  {
    hide CommandText, PosixFields, IsSourceFile, EndsWith;
    var file := args[0];
    if EndsWith(file, ".json") {
      CommandTextIsItsFields(["jq", "-c", ".", file]);
      CommandTextIsItsFields(["cat", file]);
    } else {
      CommandTextIsItsFields(["crabcc", "read", match env.resolve(file) case None => file case Some(path) => path]);
    }
  }

  /** The one request that a rewrite changes: grep prints file names after all, and ripgrep will not. */
  predicate LosesNames(words: seq<string>, r: Rewrite)
    requires words != []
  {
    words[0] == "grep" && r.rule == "grep->rg" && NamesFlipped(words[1..])
  }

  /** What was asked for is still asked for. */
  ghost predicate KeepsRequest(words: seq<string>, inner: string, env: Env)
    requires words != []
  {
    var prog, args := words[0], words[1..];
    if prog == "grep" then SearchesLikeGrep(args, inner) || LooksUpPattern(args, "rR", inner, env)
    else if prog == "rg" then LooksUpPattern(args, "", inner, env)
    else if prog == "find" then ListsLikeFind(args, inner)
    else if prog == "cat" || prog == "less" || prog == "more" then ReadsFile(args, inner, env)
    else RunsWrapped(words, inner)
  }

  lemma UpgradeLooksUp(args: seq<string>, allowRecursive: bool, rule: string, env: Env)
    requires ShortFlags(args, allowRecursive).Some? && ShortFlags(args, allowRecursive).value.positionals != []
    requires var o := ShortFlags(args, allowRecursive).value;
             UpgradeApplies(o, o.positionals[0], o.positionals[1..], env.isSymbol)
    ensures var o := ShortFlags(args, allowRecursive).value;
            LooksUpPattern(args, if allowRecursive then "rR" else "",
                           SymbolUpgrade(o.positionals[0], o.filesOnly, rule).inner, env)
  {
    hide ShortFlags, FlagChars, Positionals, CommandText, PosixFields, UpgradeApplies, IsSymbolSearch;
    ShortFlagsMeaning(args, allowRecursive);
    ParsedSearch(args, allowRecursive, env);
    var o := ShortFlags(args, allowRecursive).value;
    CommandTextIsItsFields(["crabcc", "lookup", "refs", o.positionals[0]] + When(o.filesOnly, "--files-only"));
  }

  /** `plan_grep`. */
  method PlanGrepLoop(args: seq<string>, env: Env) returns (r: Option<Rewrite>)
    ensures r == PlanGrep(args, env)
    ensures r.Some? ==> IsFinal(r.value.inner, env)
    ensures r.Some? && r.value.rule == "grep->rg" ==> (SearchesLikeGrep(args, r.value.inner) <==> !NamesFlipped(args))
    ensures r.Some? && r.value.rule == "grep->rg" ==> !LooksUpPattern(args, "rR", r.value.inner, env)
    ensures r.Some? && r.value.rule != "grep->rg" ==> LooksUpPattern(args, "rR", r.value.inner, env)
  {
    hide IsFinal, SearchesLikeGrep, LooksUpPattern, IsBareIdent, CommandText, ShortFlags, NamesFlipped;
    assert "grep->crabcc-refs" != "grep->rg" by {
      assert |"grep->crabcc-refs"| != |"grep->rg"|;
    }
    var parsed := ParseShortFlags(args, true);
    if parsed.None? || parsed.value.positionals == [] {
      return None;
    }
    var o := parsed.value;
    var pattern, paths := o.positionals[0], o.positionals[1..];
    if !o.recursive && paths == [] {
      return None;
    }
    if UpgradeApplies(o, pattern, paths, env.isSymbol) {
      UpgradeLooksUp(args, true, "grep->crabcc-refs", env);
      GrepIsFinal(args, env);
      return Some(SymbolUpgrade(pattern, o.filesOnly, "grep->crabcc-refs"));
    }
    if !o.recursive && (exists p :: p in paths && env.isDir(p)) {
      return None;
    }
    if !o.fixed && !RegexCompatible(pattern) {
      return None;
    }
    var rw := RgSwap(o, pattern, paths);
    GrepIsFinal(args, env);
    GrepKeepsRequest(args, env);
    return Some(rw);
  }

  lemma GrepIsFinal(args: seq<string>, env: Env)
    requires PlanGrep(args, env).Some?
    ensures IsFinal(PlanGrep(args, env).value.inner, env)
  {
    hide PlanGrep, Plan;
    forall env': Env | env'.isSymbol == env.isSymbol ensures Plan(PlanGrep(args, env).value.inner, env') == None {
      PlanGrepIsFinal(args, env, env');
    }
  }

  lemma GrepKeepsRequest(args: seq<string>, env: Env)
    requires PlanGrep(args, env).Some? && PlanGrep(args, env).value.rule == "grep->rg"
    ensures SearchesLikeGrep(args, PlanGrep(args, env).value.inner) <==> !NamesFlipped(args)
    ensures !LooksUpPattern(args, "rR", PlanGrep(args, env).value.inner, env)
  {
    hide PlanGrep, PosixFields, ReadGrep, ReadRg, NamesFlipped, FlagChars, Positionals;
    GrepRequestSurvives(args, env);
    assert "rg" != "crabcc" by {
      assert |"rg"| != |"crabcc"|;
    }
  }

  lemma PlanKeepsRequest(words: seq<string>, env: Env)
    requires words != [] && words[0] != "grep" && PlanWords(words, env).Some?
    ensures KeepsRequest(words, PlanWords(words, env).value.inner, env)
  {
    hide CommandText, PosixFields, ShortFlags, PlanCat, ReadsFile, LooksUpPattern, IsFindShape, Items, IsBareIdent;
    var prog, args := words[0], words[1..];
    if prog == "rg" {
      UpgradeLooksUp(args, false, "rg->crabcc-refs", env);
    } else if prog == "find" {
      FindRequestSurvives(args);
    } else if prog == "cat" || prog == "less" || prog == "more" {
      CatReadsFile(args, env);
    } else if prog == "tail" {
      WrapKeepsCommand(words, "tail-f->crabcc-run");
    } else if prog == "journalctl" {
      WrapKeepsCommand(words, "journalctl-f->crabcc-run");
    } else if prog == "watch" {
      WrapKeepsCommand(words, "watch->crabcc-run");
    }
  }

  lemma PlanIsFinal(cmd: string, env: Env)
    requires Plan(cmd, env).Some?
    ensures IsFinal(Plan(cmd, env).value.inner, env)
  {
    hide Plan;
    forall env': Env | env'.isSymbol == env.isSymbol ensures Plan(Plan(cmd, env).value.inner, env') == None {
      RewritingIsFinal(cmd, env, env');
    }
  }

  /**
   * `plan`, with the loops of the tokenizer, the flag parser, the find scan and the printer. What was asked for is
   * what a shell reads in the command, wherever the command reads plainly.
   */
  method PlanLoop(cmd: string, env: Env) returns (r: Option<Rewrite>)
    ensures r == Plan(cmd, env)
    ensures r.Some? ==> IsFinal(r.value.inner, env)
    ensures r.Some? <==> Tokenize(cmd).Some? && Tokenize(cmd).value != [] && Fires(Tokenize(cmd).value, env)
    ensures r.Some? ==>
              var words := Tokenize(cmd).value; KeepsRequest(words, r.value.inner, env) <==> !LosesNames(words, r.value)
    ensures r.Some? ==> (PosixFields(cmd) == Tokenize(cmd) <==> ReadsPlainly(SCAN_START, cmd))
  {
    hide IsFinal, Tokenize, PlanGrep, PlanRg, PlanFind, PlanCat, PlanFollow, RunWrap, NamesFlipped;
    hide PosixFields, ReadsPlainly, Fires, LooksUpPattern;
    var words := TokenizeLoop(cmd);
    PlanFiresIff(cmd, env);
    if words.None? || words.value == [] {
      return None;
    }
    ShellReadsSameIff(cmd);
    var prog, rest := words.value[0], words.value[1..];
    if prog == "grep" {
      r := PlanGrepLoop(rest, env);
    } else {
      if prog == "rg" {
        r := PlanRg(rest, env);
      } else if prog == "find" {
        r := PlanFindLoop(rest);
      } else if prog == "cat" || prog == "less" || prog == "more" {
        r := PlanCat(rest, env);
      } else if prog == "tail" {
        r := PlanFollow(words.value, "tail-f->crabcc-run");
      } else if prog == "journalctl" {
        r := PlanFollow(words.value, "journalctl-f->crabcc-run");
      } else if prog == "watch" && rest != [] {
        r := Some(RunWrap(words.value, "watch->crabcc-run"));
      } else {
        r := None;
      }
      assert r == PlanWords(words.value, env);
      hide KeepsRequest;
      if r.Some? {
        PlanKeepsRequest(words.value, env);
        PlanIsFinal(cmd, env);
      }
    }
  }

  /**
   * From one shell to the other: where the words of a rewritten command are separated by blanks and a shell needs
   * only unquoting to read it, what the shell reads in the rewrite asks for what it would have read in the command,
   * except for flipped file names.
   */
  lemma ShellRequestSurvives(cmd: string, env: Env, r: Rewrite)
    requires Plan(cmd, env) == Some(r) && PosixFields(cmd).Some? && BlankSeparated(SCAN_START, cmd)
    ensures PosixFields(cmd).value != []
    ensures KeepsRequest(PosixFields(cmd).value, r.inner, env) <==> !LosesNames(PosixFields(cmd).value, r)
  {
    hide PosixFields, Tokenize, PlanGrep, PlanRg, PlanFind, PlanCat, PlanFollow, RunWrap, BlankSeparated;
    TokenizeAgreesWithShell(cmd);
    var words := Tokenize(cmd).value;
    if words[0] == "grep" {
      GrepKeeps(words[1..], env);
    } else {
      PlanKeepsRequest(words, env);
    }
  }

  lemma GrepKeeps(args: seq<string>, env: Env)
    requires PlanGrep(args, env).Some?
    ensures var r := PlanGrep(args, env).value;
            (SearchesLikeGrep(args, r.inner) || LooksUpPattern(args, "rR", r.inner, env)) ==
            !(r.rule == "grep->rg" && NamesFlipped(args))
  {
    hide SearchesLikeGrep, LooksUpPattern, IsBareIdent, CommandText, ShortFlags, NamesFlipped;
    if PlanGrep(args, env).value.rule == "grep->rg" {
      GrepKeepsRequest(args, env);
    } else {
      UpgradeLooksUp(args, true, "grep->crabcc-refs", env);
    }
  }

  // ----- where it fails -----

  /** The shell would have expanded the pattern; the rewrite hands it over as it stands. */
  lemma PatternIsNotExpanded(env: Env)
    ensures var cmd := "tail -f *";
            && PosixFields(cmd) == None && !ReadsPlainly(SCAN_START, cmd)
            && Plan(cmd, env).Some?
            && PosixFields(Plan(cmd, env).value.inner) ==
                 Some(["crabcc", "run", "--timeout", "30", "--"] + ["tail", "-f", "*"])
  {
    hide Tokenize, PosixFields, ReadsPlainly, CommandText, PlanWords, RunWrap;
    TailTokens();
    TailIsRejected();
    ShellReadsSameIff("tail -f *");
    FollowFires(["tail", "-f", "*"], env);
    WrapKeepsCommand(["tail", "-f", "*"], "tail-f->crabcc-run");
  }

  lemma FollowFires(words: seq<string>, env: Env)
    requires |words| > 1 && words[0] == "tail" && words[1] == "-f"
    ensures PlanWords(words, env) == Some(RunWrap(words, "tail-f->crabcc-run"))
  {
    hide RunWrap;
    assert IsFollowFlag("-f") by {
      assert "-f"[1] == 'f' && "-f"[..1] == "-" && "--"[1] == '-';
    }
    hide IsFollowFlag;
    assert words[1..][0] == "-f";
  }

  lemma TailTokens()
    ensures Tokenize("tail -f *") == Some(["tail", "-f", "*"])
  {
    TailIsMadeOf();
    hide IsSimple, IsClean, Shq, FeedAll, Feed, HasMeta;
    FeedWordAndBlank([], "tail", "-f *");
    FeedWordAndBlank(["tail"], "-f", "*");
    FeedOne(Scan(["tail", "-f"], "", false, None), '*');
    StarIsAWord();
    assert [] + ["tail"] == ["tail"] && ["tail"] + ["-f"] == ["tail", "-f"];
    assert ["tail", "-f"] + ["*"] == ["tail", "-f", "*"];
  }

  lemma StarIsAWord()
    ensures Feed(Scan(["tail", "-f"], "", false, None), '*') == Scan(["tail", "-f"], "*", true, None)
    ensures ReadChar(Reading(["tail", "-f"], None, Plain), '*') == Rejected
  {
    assert "" + ['*'] == "*";
  }

  lemma TailIsMadeOf()
    ensures Shq("tail") + [' '] + "-f *" == "tail -f *" && Shq("-f") + [' '] + "*" == "-f *"
    ensures IsClean("tail") && IsClean("-f") && !HasMeta("tail -f *")
  {
    SimpleIsItself("tail");
    SimpleIsItself("-f");
    hide Shq;
    HasMetaConcat("tail ", "-f *");
    assert "tail " + "-f *" == "tail -f *";
  }

  lemma TailIsRejected()
    ensures PosixFields("tail -f *") == None
  {
    TailIsMadeOf();
    StarIsAWord();
    hide Shq, ReadAll, ReadChar;
    ReadWordAndBlank([], "tail", "-f *");
    ReadWordAndBlank(["tail"], "-f", "*");
    ReadOne(Reading(["tail", "-f"], None, Plain), '*');
    assert [] + ["tail"] == ["tail"] && ["tail"] + ["-f"] == ["tail", "-f"];
  }

  /** grep prints file names for these arguments, its rewrite does not. */
  lemma FlippedNamesAreLost(env: Env)
    ensures var args := ["-r", "-h", "-H", "x", "."];
            && PlanGrep(args, env).Some? && PlanGrep(args, env).value.rule == "grep->rg"
            && NamesFlipped(args) && !SearchesLikeGrep(args, PlanGrep(args, env).value.inner)
  {
    var args := ["-r", "-h", "-H", "x", "."];
    FlippedFlags();
    FlagTextChars(args);
    ShortFlagsMeaning(args, true);
    hide ShortFlags, FlagText, FlagChars, Positionals, CommandText, Chars, LastNameFlag;
    GrepKeepsRequest(args, env);
  }

  lemma FlippedFlags()
    ensures var args := ["-r", "-h", "-H", "x", "."];
            && FlagText(args) == "rhH" && Chars("rhH") == {'r', 'h', 'H'} && Positionals(args) == ["x", "."]
            && LastNameFlag("rhH") == Some(true)
  {
    FlippedChars();
    hide Chars, LastNameFlag, FlagText, Positionals;
    var plain: seq<string> := ["x", "."];
    PlainWords(plain);
    NoFlagText(plain);
    ReadOneFlag('H', plain);
    ReadOneFlag('h', ["-H"] + plain);
    ReadOneFlag('r', ["-h"] + (["-H"] + plain));
    assert ["-r"] + (["-h"] + (["-H"] + plain)) == ["-r", "-h", "-H", "x", "."];
  }

  lemma FlippedChars()
    ensures Chars("rhH") == {'r', 'h', 'H'} && LastNameFlag("rhH") == Some(true)
  {
    assert "rhH"[1..] == "hH" && "hH"[1..] == "H" && "H"[1..] == "";
  }

  lemma ReadOneFlag(c: char, rest: seq<string>)
    ensures FlagText([['-', c]] + rest) == [c] + FlagText(rest)
    ensures Positionals([['-', c]] + rest) == Positionals(rest)
  {
    assert ([['-', c]] + rest)[1..] == rest;
  }

  lemma {:induction false} NoFlagText(plain: seq<string>)
    requires forall w :: w in plain ==> !IsFlagArg(w)
    ensures FlagText(plain) == ""
  {
    hide IsFlagArg;
    if plain != [] {
      assert plain[0] in plain;
      NoFlagText(plain[1..]);
    }
  }
}
