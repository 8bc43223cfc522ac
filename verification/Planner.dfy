/** `plan` and its rules: which command becomes which. */
module Planner {
  import opened Results
  import opened Text
  import opened ShellText
  import opened Rewriter

  // ----- the rules -----

  predicate IsBareIdent(s: string) {
    && |s| >= 2
    && ('a' <= s[0] <= 'z' || 'A' <= s[0] <= 'Z' || s[0] == '_')
    && forall i :: 0 <= i < |s| ==> 'a' <= s[i] <= 'z' || 'A' <= s[i] <= 'Z' || '0' <= s[i] <= '9' || s[i] == '_'
  }

  predicate RegexCompatible(pattern: string) { '+' !in pattern && '?' !in pattern }

  function SymbolUpgrade(pattern: string, filesOnly: bool, rule: string): Rewrite {
    var words := ["crabcc", "lookup", "refs", pattern] + (if filesOnly then ["--files-only"] else []);
    Rewrite(CommandText(words), rule, pattern, "refs")
  }

  /** Repo-wide, case-sensitive, not a count, and the pattern is an indexed identifier. */
  predicate UpgradeApplies(o: GrepOpts, pattern: string, paths: seq<string>, isSymbol: string -> bool) {
    && (paths == [] || paths == ["."])
    && !o.ignoreCase && !o.count
    && IsBareIdent(pattern) && isSymbol(pattern)
  }

  function When(b: bool, word: string): seq<string> { if b then [word] else [] }

  function FlagWords(o: GrepOpts): seq<string> {
    When(o.ignoreCase, "-i") + When(o.word, "-w") + When(o.fixed, "-F") + When(o.lineNumbers, "-n")
    + When(o.filesOnly, "-l") + When(o.count, "-c")
    + When(o.withFilename, "--with-filename") + When(o.noFilename, "--no-filename")
  }

  function RgWords(o: GrepOpts, pattern: string, paths: seq<string>): seq<string> {
    ["rg"] + FlagWords(o) + ([pattern] + paths)
  }

  function RgSwapOf(o: GrepOpts, pattern: string, paths: seq<string>): Rewrite {
    Rewrite(CommandText(RgWords(o, pattern, paths)), "grep->rg", pattern, "rewrite")
  }

  function PlanGrep(args: seq<string>, env: Env): Option<Rewrite> {
    match ShortFlags(args, true)
    case None => None
    case Some(o) =>
      if o.positionals == [] then None
      else
        var pattern, paths := o.positionals[0], o.positionals[1..];
        if !o.recursive && paths == [] then None
        else if UpgradeApplies(o, pattern, paths, env.isSymbol) then
          Some(SymbolUpgrade(pattern, o.filesOnly, "grep->crabcc-refs"))
        else if !o.recursive && (exists p :: p in paths && env.isDir(p)) then None
        else if !o.fixed && !RegexCompatible(pattern) then None
        else Some(RgSwapOf(o, pattern, paths))
  }

  function PlanRg(args: seq<string>, env: Env): Option<Rewrite> {
    match ShortFlags(args, false)
    case None => None
    case Some(o) =>
      if o.positionals == [] then None
      else
        var pattern, paths := o.positionals[0], o.positionals[1..];
        if UpgradeApplies(o, pattern, paths, env.isSymbol) then
          Some(SymbolUpgrade(pattern, o.filesOnly, "rg->crabcc-refs"))
        else None
  }

  /** The arguments of `find`, one predicate or path at a time. */
  datatype FindItem = Path(path: string) | Name(glob: string, anyCase: bool) | TypeF

  function Print(items: seq<FindItem>): seq<string> {
    if items == [] then []
    else
      (match items[0]
       case Path(p) => [p]
       case Name(glob, anyCase) => [if anyCase then "-iname" else "-name", glob]
       case TypeF => ["-type", "f"]) + Print(items[1..])
  }

  function Items(args: seq<string>): Option<seq<FindItem>>
    decreases |args|
  {
    if args == [] then Some([])
    else if args[0] == "-name" || args[0] == "-iname" then
      if |args| < 2 then None
      else
        (match Items(args[2..])
         case None => None
         case Some(rest) => Some([Name(args[1], args[0] == "-iname")] + rest))
    else if args[0] == "-type" then
      if |args| < 2 || args[1] != "f" then None
      else
        (match Items(args[2..])
         case None => None
         case Some(rest) => Some([TypeF] + rest))
    else if StartsWith(args[0], "-") then None
    else
      match Items(args[1..])
      case None => None
      case Some(rest) => Some([Path(args[0])] + rest)
  }

  function Paths(items: seq<FindItem>): seq<string> {
    if items == [] then []
    else (if items[0].Path? then [items[0].path] else []) + Paths(items[1..])
  }

  function Names(items: seq<FindItem>): seq<FindItem> {
    if items == [] then []
    else (if items[0].Name? then [items[0]] else []) + Names(items[1..])
  }

  function FindSwap(name: FindItem, paths: seq<string>): Rewrite
    requires name.Name?
  {
    var flag := if name.anyCase then "--iglob" else "-g";
    Rewrite(CommandText(["rg", "--files", flag, name.glob] + paths), "find->rg", name.glob, "rewrite")
  }

  /** Exactly one name test, at least one `-type f`, and nothing but paths besides. */
  function PlanFind(args: seq<string>): Option<Rewrite> {
    match Items(args)
    case None => None
    case Some(items) =>
      if |Names(items)| == 1 && TypeF in items && Names(items)[0].Name?
      then Some(FindSwap(Names(items)[0], Paths(items)))
      else None
  }

  /** `Path::file_name` on Unix. */
  function FileName(path: string): Option<string> {
    var parts := Components(Split(path, '/'));
    if parts == [] || parts[|parts| - 1] == ".." then None else Some(parts[|parts| - 1])
  }

  function Components(parts: seq<string>): seq<string> {
    if parts == [] then []
    else (if parts[0] == "" || parts[0] == "." then [] else [parts[0]]) + Components(parts[1..])
  }

  /** `Path::extension`: what follows the last dot, unless that dot starts the name. */
  function Extension(path: string): Option<string> {
    match FileName(path)
    case None => None
    case Some(name) =>
      var parts := Split(name, '.');
      if |parts| == 1 || (|parts| == 2 && parts[0] == "") then None else Some(parts[|parts| - 1])
  }

  const SOURCE_EXTENSIONS: set<string> := {
    "rs", "ts", "tsx", "js", "jsx", "mjs", "cjs", "py", "go", "java", "kt", "c", "h", "cc", "cpp", "hpp", "rb", "php",
    "swift", "scala", "cs"
  }

  predicate IsSourceFile(file: string) {
    Extension(file).Some? && Lower(Extension(file).value) in SOURCE_EXTENSIONS
  }

  function PlanCat(args: seq<string>, env: Env): Option<Rewrite> {
    if |args| != 1 || StartsWith(args[0], "-") then None
    else
      var file := args[0];
      if EndsWith(file, ".json") then
        Some(Rewrite(CommandText(["jq", "-c", ".", file]) + " || " + CommandText(["cat", file]),
                     "cat-json->jq", file, "rewrite"))
      else if IsSourceFile(file) then
        var target := match env.resolve(file) case None => file case Some(path) => path;
        Some(Rewrite(CommandText(["crabcc", "read", target]), "cat->crabcc-read", file, "read"))
      else None
  }

  function RunWrap(words: seq<string>, rule: string): Rewrite
    requires words != []
  {
    Rewrite(CommandText(["crabcc", "run", "--timeout", RUN_TIMEOUT_SECS, "--"] + words), rule, words[0], "rewrite")
  }

  predicate IsFollowFlag(a: string) {
    a == "--follow" || (StartsWith(a, "-") && !StartsWith(a, "--") && |a| > 1 && ('f' in a || 'F' in a))
  }

  function PlanFollow(words: seq<string>, rule: string): Option<Rewrite>
    requires words != []
  {
    if exists a :: a in words[1..] && IsFollowFlag(a) then Some(RunWrap(words, rule)) else None
  }

  function PlanWords(words: seq<string>, env: Env): Option<Rewrite>
    requires words != []
  {
    var prog, rest := words[0], words[1..];
    if prog == "grep" then PlanGrep(rest, env)
    else if prog == "rg" then PlanRg(rest, env)
    else if prog == "find" then PlanFind(rest)
    else if prog == "cat" then PlanCat(rest, env)
    else if prog == "tail" then PlanFollow(words, "tail-f->crabcc-run")
    else if prog == "journalctl" then PlanFollow(words, "journalctl-f->crabcc-run")
    else if prog == "watch" then (if rest == [] then None else Some(RunWrap(words, "watch->crabcc-run")))
    else if prog == "less" || prog == "more" then PlanCat(rest, env)
    else None
  }

  function Plan(cmd: string, env: Env): Option<Rewrite> {
    match Tokenize(cmd)
    case None => None
    case Some(words) => if words == [] then None else PlanWords(words, env)
  }

  // ----- the loops of the source -----

  lemma CommandTextSnoc(words: seq<string>, word: string)
    requires words != []
    ensures CommandText(words + [word]) == CommandText(words) + " " + Shq(word)
  {
    ShqAllConcat(words, [word]);
    assert ShqAll([word]) == [Shq(word)];
    JoinOfConcat(ShqAll(words), [Shq(word)], ' ');
  }

  lemma {:induction false} ShqAllConcat(a: seq<string>, b: seq<string>)
    ensures ShqAll(a + b) == ShqAll(a) + ShqAll(b)
  {
    if a == [] {
      assert a + b == b;
    } else {
      assert (a + b)[1..] == a[1..] + b;
      ShqAllConcat(a[1..], b);
    }
  }

  /** One `push_str(" -x")` of a word that needs no quoting. */
  method PushFlag(inner: string, b: bool, word: string, ghost words: seq<string>) returns (r: string)
    requires words != [] && inner == CommandText(words) && IsSimple(word)
    ensures r == CommandText(words + When(b, word))
  {
    CommandTextSnoc(words, word);
    assert words + [] == words;
    r := if b then inner + " " + word else inner;
  }

  lemma Regroup(a: seq<string>, b: seq<string>, c: seq<string>)
    ensures a + b + c == a + (b + c)
  {
  }

  /** The option part of `rg_swap`, one conditional append after another. */
  method RgFlagText(o: GrepOpts) returns (inner: string)
    ensures inner == CommandText(["rg"] + FlagWords(o))
  {
    RgIsItsText();
    hide CommandText, When;
    ghost var rg := ["rg"];
    ghost var words := When(o.ignoreCase, "-i");
    inner := PushFlag("rg", o.ignoreCase, "-i", rg);
    Regroup(rg, words, When(o.word, "-w"));
    inner := PushFlag(inner, o.word, "-w", rg + words);
    words := words + When(o.word, "-w");
    Regroup(rg, words, When(o.fixed, "-F"));
    inner := PushFlag(inner, o.fixed, "-F", rg + words);
    words := words + When(o.fixed, "-F");
    Regroup(rg, words, When(o.lineNumbers, "-n"));
    inner := PushFlag(inner, o.lineNumbers, "-n", rg + words);
    words := words + When(o.lineNumbers, "-n");
    Regroup(rg, words, When(o.filesOnly, "-l"));
    inner := PushFlag(inner, o.filesOnly, "-l", rg + words);
    words := words + When(o.filesOnly, "-l");
    Regroup(rg, words, When(o.count, "-c"));
    inner := PushFlag(inner, o.count, "-c", rg + words);
    words := words + When(o.count, "-c");
    Regroup(rg, words, When(o.withFilename, "--with-filename"));
    inner := PushFlag(inner, o.withFilename, "--with-filename", rg + words);
    words := words + When(o.withFilename, "--with-filename");
    Regroup(rg, words, When(o.noFilename, "--no-filename"));
    inner := PushFlag(inner, o.noFilename, "--no-filename", rg + words);
  }

  /** `rg_swap` builds its command by appending; the result is the quoted argument vector. */
  method RgSwap(o: GrepOpts, pattern: string, paths: seq<string>) returns (r: Rewrite)
    ensures r == RgSwapOf(o, pattern, paths)
  {
    hide CommandText, Shq, FlagWords;
    ghost var words := ["rg"] + FlagWords(o);
    var inner := RgFlagText(o);
    CommandTextSnoc(words, pattern);
    inner := inner + " " + Shq(pattern);
    assert words + [pattern] == words + ([pattern] + paths[..0]);
    for i := 0 to |paths|
      invariant inner == CommandText(words + ([pattern] + paths[..i]))
    {
      CommandTextSnoc(words + ([pattern] + paths[..i]), paths[i]);
      assert words + ([pattern] + paths[..i]) + [paths[i]] == words + ([pattern] + paths[..i + 1]);
      inner := inner + " " + Shq(paths[i]);
    }
    assert paths[..|paths|] == paths;
    return Rewrite(inner, "grep->rg", pattern, "rewrite");
  }

  lemma RgIsItsText()
    ensures CommandText(["rg"]) == "rg"
  {
    CommandTextOne("rg");
    assert IsSimple("rg");
  }

  lemma {:induction false} PathsConcat(a: seq<FindItem>, b: seq<FindItem>)
    ensures Paths(a + b) == Paths(a) + Paths(b)
  {
    if a == [] {
      assert a + b == b;
    } else {
      assert (a + b)[1..] == a[1..] + b;
      PathsConcat(a[1..], b);
      var first := if a[0].Path? then [a[0].path] else [];
      assert Paths(a + b) == first + Paths(a[1..] + b) && Paths(a) == first + Paths(a[1..]);
      hide Paths;
      assert first + (Paths(a[1..]) + Paths(b)) == (first + Paths(a[1..])) + Paths(b);
    }
  }

  lemma {:induction false} NamesConcat(a: seq<FindItem>, b: seq<FindItem>)
    ensures Names(a + b) == Names(a) + Names(b)
  {
    if a == [] {
      assert a + b == b;
    } else {
      assert (a + b)[1..] == a[1..] + b;
      NamesConcat(a[1..], b);
      var first := if a[0].Name? then [a[0]] else [];
      assert Names(a + b) == first + Names(a[1..] + b) && Names(a) == first + Names(a[1..]);
      hide Names;
      assert first + (Names(a[1..]) + Names(b)) == (first + Names(a[1..])) + Names(b);
    }
  }

  lemma OneItem(item: FindItem)
    ensures Paths([item]) == if item.Path? then [item.path] else []
    ensures Names([item]) == if item.Name? then [item] else []
  {
    assert [item][1..] == [];
  }

  lemma {:induction false} AllNamesAreNames(items: seq<FindItem>)
    ensures forall i :: 0 <= i < |Names(items)| ==> Names(items)[i].Name?
  {
    if items != [] {
      AllNamesAreNames(items[1..]);
    }
  }

  function Prepend(front: seq<FindItem>, rest: Option<seq<FindItem>>): Option<seq<FindItem>> {
    match rest case None => None case Some(items) => Some(front + items)
  }

  lemma PrependTwice(front: seq<FindItem>, item: FindItem, rest: Option<seq<FindItem>>)
    ensures Prepend(front, Prepend([item], rest)) == Prepend(front + [item], rest)
  {
    if rest.Some? {
      assert front + ([item] + rest.value) == front + [item] + rest.value;
    }
  }

  /** The item at position `i` of the arguments and the position after it. */
  function ItemAt(args: seq<string>, i: nat): Option<(FindItem, nat)>
    requires i < |args|
  {
    var a := args[i];
    if a == "-name" || a == "-iname" then
      if i + 1 < |args| then Some((Name(args[i + 1], a == "-iname"), i + 2)) else None
    else if a == "-type" then
      if i + 1 < |args| && args[i + 1] == "f" then Some((TypeF, i + 2)) else None
    else if StartsWith(a, "-") then None
    else Some((Path(a), i + 1))
  }

  lemma ItemsFrom(args: seq<string>, i: nat)
    requires i < |args|
    ensures Items(args[i..]) == match ItemAt(args, i)
                                case None => None
                                case Some(r) => Prepend([r.0], Items(args[r.1..]))
    ensures ItemAt(args, i).Some? ==> i < ItemAt(args, i).value.1 <= |args|
  {
    var left := args[i..];
    assert left[1..] == args[i + 1..];
    if |left| >= 2 {
      assert left[2..] == args[i + 2..] && left[1] == args[i + 1];
    }
  }

  /** The scan of `plan_find` over its arguments. */
  method ScanFind(args: seq<string>) returns (r: Option<(seq<string>, Option<FindItem>, bool)>)
    ensures match r
            case None => Items(args).None? || |Names(Items(args).value)| > 1
            case Some((paths, name, typeF)) =>
              && Items(args).Some? && paths == Paths(Items(args).value)
              && Names(Items(args).value) == (if name.Some? then [name.value] else [])
              && (typeF <==> TypeF in Items(args).value)
              && (name.Some? ==> name.value.Name?)
  {
    hide Items, Paths, Names;
    var paths: seq<string> := [];
    var name: Option<FindItem> := None;
    var typeF := false;
    var i := 0;
    ghost var done: seq<FindItem> := [];
    assert args[0..] == args;
    NothingFoundYet(args);
    while i < |args|
      invariant 0 <= i <= |args|
      invariant Items(args) == Prepend(done, Items(args[i..]))
      invariant paths == Paths(done)
      invariant Names(done) == if name.Some? then [name.value] else []
      invariant typeF <==> TypeF in done
      invariant name.Some? ==> name.value.Name?
    {
      ItemsFrom(args, i);
      var a := args[i];
      ghost var item := ItemAt(args, i);
      if a == "-name" || a == "-iname" {
        if name.Some? {
          TwoNamesPassThrough(args, done, i);
          return None;
        }
        if i + 1 >= |args| {
          return None;
        }
        name := Some(Name(args[i + 1], a == "-iname"));
        i := i + 2;
      } else if a == "-type" {
        if i + 1 >= |args| || args[i + 1] != "f" {
          return None;
        }
        typeF := true;
        i := i + 2;
      } else if StartsWith(a, "-") {
        return None;
      } else {
        paths := paths + [a];
        i := i + 1;
      }
      PrependTwice(done, item.value.0, Items(args[i..]));
      PathsConcat(done, [item.value.0]);
      NamesConcat(done, [item.value.0]);
      OneItem(item.value.0);
      done := done + [item.value.0];
    }
    assert args[i..] == [];
    NothingFoundYet([]);
    assert done + [] == done;
    return Some((paths, name, typeF));
  }

  lemma NothingFoundYet(args: seq<string>)
    ensures Paths([]) == [] && Names([]) == [] && Items([]) == Some([])
    ensures Items(args) == Prepend([], Items(args))
  {
    if Items(args).Some? {
      assert [] + Items(args).value == Items(args).value;
    }
  }

  /** `plan_find`. */
  method PlanFindLoop(args: seq<string>) returns (r: Option<Rewrite>)
    ensures r == PlanFind(args)
  {
    hide Items, Paths, Names;
    var scan := ScanFind(args);
    if scan.None? {
      return None;
    }
    var (paths, name, typeF) := scan.value;
    if !typeF || name.None? {
      return None;
    }
    var iglob, glob := name.value.anyCase, name.value.glob;
    var inner := FindFlagText(glob, iglob);
    hide CommandText, Shq;
    ghost var words := ["rg", "--files", if iglob then "--iglob" else "-g", glob];
    assert words + paths[..0] == words;
    for k := 0 to |paths|
      invariant inner == CommandText(words + paths[..k])
    {
      CommandTextSnoc(words + paths[..k], paths[k]);
      assert words + paths[..k] + [paths[k]] == words + paths[..k + 1];
      inner := inner + " " + Shq(paths[k]);
    }
    assert paths[..|paths|] == paths;
    return Some(Rewrite(inner, "find->rg", glob, "rewrite"));
  }

  lemma SimpleIsItself(word: string)
    requires IsSimple(word)
    ensures Shq(word) == word
  {
  }

  method FindFlagText(glob: string, iglob: bool) returns (inner: string)
    ensures inner == CommandText(["rg", "--files", if iglob then "--iglob" else "-g", glob])
  {
    var flag := if iglob then "--iglob" else "-g";
    RgIsItsText();
    SimpleIsItself("--files");
    SimpleIsItself(flag);
    hide CommandText, Shq, IsSimple;
    inner := "rg";
    CommandTextSnoc(["rg"], "--files");
    inner := inner + " " + "--files";
    CommandTextSnoc(["rg", "--files"], flag);
    inner := inner + " " + flag;
    CommandTextSnoc(["rg", "--files", flag], glob);
    inner := inner + " " + Shq(glob);
    assert ["rg"] + ["--files"] == ["rg", "--files"];
    assert ["rg", "--files"] + [flag] == ["rg", "--files", flag];
    assert ["rg", "--files", flag] + [glob] == ["rg", "--files", flag, glob];
  }

  lemma TwoNamesPassThrough(args: seq<string>, done: seq<FindItem>, i: nat)
    requires i < |args| && Items(args) == Prepend(done, Items(args[i..]))
    requires |Names(done)| == 1 && (args[i] == "-name" || args[i] == "-iname")
    ensures Items(args).None? || |Names(Items(args).value)| > 1
  {
    ItemsFrom(args, i);
    if Items(args[i..]).Some? {
      var rest := Items(args[i..]).value;
      NamesConcat(done, rest);
      assert rest[0].Name?;
    }
  }
}
