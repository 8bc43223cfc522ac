/** When each rule of the planner fires, read off the arguments. */
module PlanRules {
  import opened Results
  import opened Text
  import opened ShellText
  import opened Rewriter
  import opened Planner
  import opened RewriteLaws

  // ----- searches -----

  /** No other flags than these, in any grouping; `extra` holds the two for recursion where they are allowed. */
  predicate KnownFlags(args: seq<string>, extra: string) {
    forall c :: c in FlagChars(args) ==> c in "IsHhnlciwF" || c in extra
  }

  predicate IsWordChar(c: char) { 'a' <= c <= 'z' || 'A' <= c <= 'Z' || '0' <= c <= '9' || c == '_' }

  /** Two or more letters, digits and underscores, of which the first is no digit. */
  predicate IsIdentifier(s: string) {
    |s| >= 2 && (forall c :: c in s ==> IsWordChar(c)) && !('0' <= s[0] <= '9')
  }

  /** One name of an indexed symbol, in the whole repository, with its case and as lines: a lookup can answer that. */
  predicate IsSymbolSearch(args: seq<string>, extra: string, env: Env) {
    var flags, plain := FlagChars(args), Positionals(args);
    && KnownFlags(args, extra) && 'i' !in flags && 'c' !in flags
    && (|plain| == 1 || (|plain| == 2 && plain[1] == ".")) && IsIdentifier(plain[0]) && env.isSymbol(plain[0])
  }

  predicate IsRecursive(args: seq<string>) { 'r' in FlagChars(args) || 'R' in FlagChars(args) }

  /** grep without recursion and without a path reads its standard input. */
  predicate ReadsFiles(args: seq<string>) { IsRecursive(args) || |Positionals(args)| > 1 }

  /** ripgrep finds what grep finds: no directory that grep would refuse, no operator that grep takes literally. */
  predicate SearchesAlike(args: seq<string>, env: Env)
    requires Positionals(args) != []
  {
    var plain := Positionals(args);
    && (IsRecursive(args) || forall p :: p in plain[1..] ==> !env.isDir(p))
    && ('F' in FlagChars(args) || ('+' !in plain[0] && '?' !in plain[0]))
  }

  lemma KnownIff(args: seq<string>, allowRecursive: bool)
    ensures AllKnown(FlagChars(args), allowRecursive) <==> KnownFlags(args, if allowRecursive then "rR" else "")
  {
    hide FlagChars;
    forall c ensures IsKnownFlag(c, allowRecursive) <==>
                     c in "IsHhnlciwF" || c in if allowRecursive then "rR" else ""
    {
    }
  }

  lemma IdentifierIff(s: string)
    ensures IsBareIdent(s) <==> IsIdentifier(s)
  {
    assert forall i :: 0 <= i < |s| ==> s[i] in s;
  }

  /** The options that the parser found are those of the arguments. */
  lemma ParsedSearch(args: seq<string>, allowRecursive: bool, env: Env)
    ensures ShortFlags(args, allowRecursive).Some? <==> KnownFlags(args, if allowRecursive then "rR" else "")
    ensures ShortFlags(args, allowRecursive).Some? ==>
              var o, flags := ShortFlags(args, allowRecursive).value, FlagChars(args);
              && o.positionals == Positionals(args) && o.recursive == IsRecursive(args)
              && o.ignoreCase == ('i' in flags) && o.count == ('c' in flags) && o.fixed == ('F' in flags)
              && (o.positionals != [] ==>
                    (UpgradeApplies(o, o.positionals[0], o.positionals[1..], env.isSymbol) <==>
                         IsSymbolSearch(args, if allowRecursive then "rR" else "", env)))
  {
    ShortFlagsMeaning(args, allowRecursive);
    KnownIff(args, allowRecursive);
    hide ShortFlags, FlagChars, Positionals, AllKnown, KnownFlags, IsBareIdent, IsIdentifier;
    if ShortFlags(args, allowRecursive).Some? && Positionals(args) != [] {
      var plain := Positionals(args);
      IdentifierIff(plain[0]);
      assert plain[1..] == [] <==> |plain| == 1;
      assert plain[1..] == ["."] <==> |plain| == 2 && plain[1] == ".";
    }
  }

  /**
   * A grep command is rewritten exactly when its flags are known, it has a pattern and does not read its standard
   * input, and it is either a symbol search, which becomes a lookup, or one that ripgrep answers alike.
   */
  lemma GrepFiresIff(args: seq<string>, env: Env)
    ensures var r := PlanGrep(args, env);
            && (r.Some? <==>
                  && KnownFlags(args, "rR") && Positionals(args) != [] && ReadsFiles(args)
                  && (IsSymbolSearch(args, "rR", env) || SearchesAlike(args, env)))
            && (r.Some? ==>
                  && r.value.key == Positionals(args)[0]
                  && r.value.rule == (if IsSymbolSearch(args, "rR", env) then "grep->crabcc-refs" else "grep->rg")
                  && r.value.trackOp == (if IsSymbolSearch(args, "rR", env) then "refs" else "rewrite"))
  {
    hide ShortFlags, FlagChars, CommandText, KnownFlags, UpgradeApplies, IsSymbolSearch, Positionals;
    ParsedSearch(args, true, env);
  }

  /** An rg command is rewritten exactly when it is a symbol search, into a lookup. */
  lemma RgFiresIff(args: seq<string>, env: Env)
    ensures var r := PlanRg(args, env);
            && (r.Some? <==> IsSymbolSearch(args, "", env))
            && (r.Some? ==>
                  r.value.key == Positionals(args)[0] && r.value.rule == "rg->crabcc-refs" && r.value.trackOp == "refs")
  {
    hide ShortFlags, FlagChars, CommandText, UpgradeApplies, Positionals, IsIdentifier;
    ParsedSearch(args, false, env);
  }

  // ----- reading a file -----

  /** Slashes and single dots, which do not change what a path names. */
  predicate IsIdle(tail: string) {
    tail == "" || (tail[0] == '/' && forall piece :: piece in Split(tail, '/') ==> piece == "" || piece == ".")
  }

  /** The last name of the path is a stem, a dot and an extension of a source language, in small or capital letters. */
  predicate EndsInSource(file: string, dir: string, stem: string, ext: string, tail: string) {
    && file == dir + (stem + "." + ext) + tail
    && (dir == "" || EndsWith(dir, "/")) && stem != "" && '/' !in stem && '/' !in ext && '.' !in ext && IsIdle(tail)
    && Lower(ext) in {
      "rs", "ts", "tsx", "js", "jsx", "mjs", "cjs", "py", "go", "java", "kt", "c", "h", "cc", "cpp", "hpp", "rb",
      "php", "swift", "scala", "cs"
    }
  }

  /** The piece, unless it names nothing. */
  function Named(piece: string): seq<string> { if piece == "" || piece == "." then [] else [piece] }

  lemma ComponentsStep(parts: seq<string>)
    requires parts != []
    ensures Components(parts) == Named(parts[0]) + Components(parts[1..])
  {
  }

  lemma {:induction false} ComponentsConcat(a: seq<string>, b: seq<string>)
    ensures Components(a + b) == Components(a) + Components(b)
  {
    if a == [] {
      assert a + b == b;
    } else {
      ComponentsConcat(a[1..], b);
      assert (a + b)[1..] == a[1..] + b;
      hide Components, Named;
      ComponentsStep(a);
      ComponentsStep(a + b);
      Regroup(Named(a[0]), Components(a[1..]), Components(b));
    }
  }

  lemma {:induction false} IdleComponents(parts: seq<string>)
    ensures Components(parts) == [] <==> forall p :: p in parts ==> p == "" || p == "."
  {
    if parts != [] {
      IdleComponents(parts[1..]);
      ComponentsStep(parts);
      hide Components;
      assert parts[0] in parts;
      assert forall p :: p in parts <==> p == parts[0] || p in parts[1..];
    }
  }

  lemma OneComponent(name: string)
    requires name != "" && name != "."
    ensures Components([name]) == [name]
  {
    assert [name][1..] == [];
  }

  lemma FileNameIs(before: seq<string>, name: string, after: seq<string>)
    requires name != "" && name != "." && Components(after) == []
    ensures var parts := Components(before + [name] + after); parts != [] && parts[|parts| - 1] == name
  {
    ComponentsConcat(before + [name], after);
    ComponentsConcat(before, [name]);
    OneComponent(name);
  }

  /** The last name that counts, and where it stands. */
  lemma {:induction false} LastComponent(parts: seq<string>) returns (k: nat)
    requires Components(parts) != []
    ensures k < |parts| && parts[k] == Components(parts)[|Components(parts)| - 1]
    ensures parts[k] != "" && parts[k] != "." && Components(parts[k + 1..]) == []
  {
    if Components(parts[1..]) == [] {
      k := 0;
    } else {
      k := LastComponent(parts[1..]);
      assert parts[1..][k + 1..] == parts[k + 2..];
      k := k + 1;
    }
  }

  lemma ExtensionOfName(name: string, stem: string, ext: string)
    requires name == stem + "." + ext && stem != "" && '.' !in ext
    ensures Split(name, '.') == Split(stem, '.') + [ext]
    ensures !(|Split(name, '.')| == 2 && Split(name, '.')[0] == "") && |Split(name, '.')| >= 2
  {
    SplitOfConcat(stem, ext, '.');
    SplitWithoutSeparator(ext, '.');
    JoinOfSplit(stem, '.');
    assert stem + ['.'] + ext == name;
    hide Split;
    if |Split(stem, '.')| == 1 {
      assert Join(Split(stem, '.'), '.') == Split(stem, '.')[0];
    }
  }

  lemma DirParts(dir: string) returns (before: seq<string>)
    requires dir == "" || EndsWith(dir, "/")
    ensures forall rest :: Split(dir + rest, '/') == before + Split(rest, '/')
  {
    hide Split;
    if dir == "" {
      before := [];
      assert forall rest :: dir + rest == rest;
      assert forall rest :: before + Split(rest, '/') == Split(rest, '/');
    } else {
      var d := dir[..|dir| - 1];
      before := Split(d, '/');
      forall rest ensures Split(dir + rest, '/') == before + Split(rest, '/') {
        SplitOfConcat(d, rest, '/');
        assert d + ['/'] + rest == dir + rest;
      }
    }
  }

  lemma NameParts(name: string, tail: string) returns (after: seq<string>)
    requires '/' !in name && IsIdle(tail)
    ensures Split(name + tail, '/') == [name] + after && Components(after) == []
  {
    SplitWithoutSeparator(name, '/');
    if tail == "" {
      after := [];
      assert name + tail == name;
    } else {
      var rest := tail[1..];
      SplitOfConcat(name, rest, '/');
      SplitOfConcat("", rest, '/');
      assert name + ['/'] + rest == name + tail && "" + ['/'] + rest == tail;
      after := Split(rest, '/');
      hide Split;
      SplitWithoutSeparator("", '/');
      assert forall p :: p in after ==> p in Split(tail, '/');
      IdleComponents(after);
    }
  }

  lemma NameOfPath(dir: string, name: string, tail: string)
    requires (dir == "" || EndsWith(dir, "/")) && '/' !in name && |name| >= 3 && IsIdle(tail)
    ensures FileName(dir + (name + tail)) == Some(name)
  {
    var before := DirParts(dir);
    var after := NameParts(name, tail);
    hide Split, Components, IsIdle, EndsWith;
    assert before + ([name] + after) == before + [name] + after;
    FileNameIs(before, name, after);
    assert name != "..";
  }

  lemma SourceIsRecognised(file: string, dir: string, stem: string, ext: string, tail: string)
    requires EndsInSource(file, dir, stem, ext, tail)
    ensures IsSourceFile(file)
  {
    var name := stem + "." + ext;
    assert ext != "" by {
      assert Lower("") == "";
    }
    hide Split, Lower, IsIdle, EndsWith, FileName;
    assert file == dir + (name + tail);
    NameOfPath(dir, name, tail);
    ExtensionOfName(name, stem, ext);
    assert Extension(file) == Some(ext);
  }

  lemma SourceIsSpelled(file: string) returns (dir: string, stem: string, ext: string, tail: string)
    requires IsSourceFile(file)
    ensures EndsInSource(file, dir, stem, ext, tail)
  {
    hide Split, Join, Lower, Components, IsIdle;
    var parts := Split(file, '/');
    var name := FileName(file).value;
    var k := LastComponent(parts);
    SplitPiecesLackSeparator(file, '/');
    assert parts[k] in parts && name == parts[k];
    dir, tail := Around(file, k);
    stem, ext := StemAndExtension(name);
  }

  /** The text before piece `k` of a path and after it. */
  lemma Around(file: string, k: nat) returns (dir: string, tail: string)
    requires k < |Split(file, '/')| && Components(Split(file, '/')[k + 1..]) == []
    ensures file == dir + Split(file, '/')[k] + tail && (dir == "" || EndsWith(dir, "/")) && IsIdle(tail)
  {
    var parts := Split(file, '/');
    var before, name, after := parts[..k], parts[k], parts[k + 1..];
    hide Split, Join, Components;
    JoinOfSplit(file, '/');
    SplitPiecesLackSeparator(file, '/');
    assert parts == before + ([name] + after);
    OnePart(name);
    dir := if before == [] then "" else Join(before, '/') + "/";
    tail := if after == [] then "" else "/" + Join(after, '/');
    if before == [] {
      assert parts == [name] + after;
    } else {
      JoinOfConcat(before, [name] + after, '/');
    }
    if after == [] {
      assert [name] + after == [name];
    } else {
      JoinOfConcat([name], after, '/');
      IdleTail(after);
    }
    assert file == dir + name + tail;
  }

  lemma OnePart(part: string)
    ensures Join([part], '/') == part
  {
  }

  lemma IdleTail(after: seq<string>)
    requires after != [] && Components(after) == [] && forall p :: p in after ==> '/' !in p
    ensures IsIdle("/" + Join(after, '/'))
  {
    IdleComponents(after);
    hide Split, Join, Components;
    SplitOfConcat("", Join(after, '/'), '/');
    SplitOfJoin(after, '/');
    SplitWithoutSeparator("", '/');
    assert "" + ['/'] + Join(after, '/') == "/" + Join(after, '/');
  }

  lemma StemAndExtension(name: string) returns (stem: string, ext: string)
    requires var parts := Split(name, '.'); |parts| >= 2 && !(|parts| == 2 && parts[0] == "")
    ensures name == stem + "." + ext && stem != "" && '.' !in ext && ext == Split(name, '.')[|Split(name, '.')| - 1]
  {
    var parts := Split(name, '.');
    hide Split;
    JoinOfSplit(name, '.');
    SplitPiecesLackSeparator(name, '.');
    var front := parts[..|parts| - 1];
    ext := parts[|parts| - 1];
    assert ext in parts && parts == front + [ext];
    JoinOfConcat(front, [ext], '.');
    stem := Join(front, '.');
    assert Join([ext], '.') == ext;
    if |front| == 1 {
      assert stem == front[0] == parts[0];
    } else {
      assert stem == front[0] + ['.'] + Join(front[1..], '.');
    }
  }

  /**
   * `cat`, `less` and `more` are rewritten exactly for one argument that is no flag and whose last name ends in
   * `.json` or in a source extension.
   */
  lemma CatFiresIff(args: seq<string>, env: Env)
    ensures var r := PlanCat(args, env);
            && (r.Some? <==>
                  && |args| == 1 && !StartsWith(args[0], "-")
                  && (EndsWith(args[0], ".json") ||
                        exists dir, stem, ext, tail :: EndsInSource(args[0], dir, stem, ext, tail)))
            && (r.Some? ==>
                  && r.value.key == args[0]
                  && r.value.rule == (if EndsWith(args[0], ".json") then "cat-json->jq" else "cat->crabcc-read")
                  && r.value.trackOp == (if EndsWith(args[0], ".json") then "rewrite" else "read"))
  {
    hide CommandText, EndsInSource, IsSourceFile, EndsWith;
    if |args| == 1 {
      if IsSourceFile(args[0]) {
        var dir, stem, ext, tail := SourceIsSpelled(args[0]);
      }
      forall dir, stem, ext, tail | EndsInSource(args[0], dir, stem, ext, tail) ensures IsSourceFile(args[0]) {
        SourceIsRecognised(args[0], dir, stem, ext, tail);
      }
    }
  }

  // ----- follows -----

  /** `--follow`, or one dash and letters of which one is an f or an F. */
  predicate Follows(a: string) {
    a == "--follow" || (|a| > 1 && a[0] == '-' && a[1] != '-' && exists i :: 0 < i < |a| && a[i] in {'f', 'F'})
  }

  lemma FollowFlagIff(a: string)
    ensures IsFollowFlag(a) <==> Follows(a)
  {
    if |a| > 1 {
      assert a[..2] == [a[0], a[1]] && a[..1] == [a[0]];
      assert "--" == ['-', '-'];
      assert 'f' in a ==> exists i :: 0 <= i < |a| && a[i] == 'f';
      assert 'F' in a ==> exists i :: 0 <= i < |a| && a[i] == 'F';
    }
  }

  /** A follow is wrapped exactly when some argument is a follow flag. */
  lemma FollowFiresIff(words: seq<string>, rule: string)
    requires words != []
    ensures var r := PlanFollow(words, rule);
            && (r.Some? <==> exists i :: 0 < i < |words| && Follows(words[i]))
            && (r.Some? ==> r.value.key == words[0] && r.value.rule == rule && r.value.trackOp == "rewrite")
  {
    hide CommandText, Follows, IsFollowFlag;
    forall i | 0 < i < |words| ensures IsFollowFlag(words[i]) <==> Follows(words[i]) {
      FollowFlagIff(words[i]);
    }
    assert forall i :: 0 < i < |words| ==> words[i] in words[1..];
    if a :| a in words[1..] && IsFollowFlag(a) {
      var i :| 0 <= i < |words[1..]| && words[1..][i] == a;
      assert Follows(words[i + 1]);
    }
  }

  // ----- every rule -----

  /** The program and its arguments are such that there is a cheaper command. */
  ghost predicate Fires(words: seq<string>, env: Env)
    requires words != []
  {
    var prog, args := words[0], words[1..];
    if prog == "grep" then
      && KnownFlags(args, "rR") && Positionals(args) != [] && ReadsFiles(args)
      && (IsSymbolSearch(args, "rR", env) || SearchesAlike(args, env))
    else if prog == "rg" then IsSymbolSearch(args, "", env)
    else if prog == "find" then exists items :: IsFindShape(args, items)
    else if prog == "cat" || prog == "less" || prog == "more" then
      && |args| == 1 && !StartsWith(args[0], "-")
      && (EndsWith(args[0], ".json") || exists dir, stem, ext, tail :: EndsInSource(args[0], dir, stem, ext, tail))
    else if prog == "tail" || prog == "journalctl" then exists i :: 0 < i < |words| && Follows(words[i])
    else prog == "watch" && args != []
  }

  /** A command is rewritten exactly when the tokenizer reads words in it for which a rule fires. */
  lemma PlanFiresIff(cmd: string, env: Env)
    ensures Plan(cmd, env).Some? <==>
            Tokenize(cmd).Some? && Tokenize(cmd).value != [] && Fires(Tokenize(cmd).value, env)
  {
    hide Tokenize, PlanGrep, PlanRg, PlanFind, PlanCat, PlanFollow, RunWrap;
    hide KnownFlags, IsSymbolSearch, SearchesAlike, ReadsFiles, EndsInSource, Follows, IsFindShape, Positionals;
    if Tokenize(cmd).Some? && Tokenize(cmd).value != [] {
      var words := Tokenize(cmd).value;
      var prog, args := words[0], words[1..];
      if prog == "grep" {
        GrepFiresIff(args, env);
      } else if prog == "rg" {
        RgFiresIff(args, env);
      } else if prog == "find" {
        FindRequestSurvives(args);
      } else if prog == "cat" || prog == "less" || prog == "more" {
        CatFiresIff(args, env);
      } else if prog == "tail" {
        FollowFiresIff(words, "tail-f->crabcc-run");
      } else if prog == "journalctl" {
        FollowFiresIff(words, "journalctl-f->crabcc-run");
      }
    }
  }

  /** The labels of the rules whose firing does not depend on the disk. */
  lemma LabelsAre(words: seq<string>, env: Env)
    requires words != [] && PlanWords(words, env).Some?
    ensures var prog, r := words[0], PlanWords(words, env).value;
            && (prog == "find" ==>
                  && r.rule == "find->rg" && r.trackOp == "rewrite"
                  && exists items :: IsFindShape(words[1..], items) && Names(items)[0].Name?
                                && r.key == Names(items)[0].glob)
            && (prog == "tail" ==> r.rule == "tail-f->crabcc-run" && r.key == prog && r.trackOp == "rewrite")
            && (prog == "journalctl" ==>
                  r.rule == "journalctl-f->crabcc-run" && r.key == prog && r.trackOp == "rewrite")
            && (prog == "watch" ==> r.rule == "watch->crabcc-run" && r.key == prog && r.trackOp == "rewrite")
  {
    hide PlanGrep, PlanRg, PlanCat, CommandText, IsFollowFlag;
    if words[0] == "find" {
      PrintOfItems(words[1..]);
      assert IsFindShape(words[1..], Items(words[1..]).value);
    }
  }
}
