/**
 * The command rewriter: grep, find, cat and blocking follows become cheaper commands.
 * What the rewriter asks of the outside world (is this name an indexed symbol, is this
 * path a directory, what does this path resolve to) is an `Env`.
 */
module Rewriter {
  import opened Results
  import opened Text

  datatype Rewrite = Rewrite(inner: string, rule: string, key: string, trackOp: string)

  datatype Env = Env(isSymbol: string -> bool, isDir: string -> bool, resolve: string -> Option<string>)

  const RUN_TIMEOUT_SECS := "30"

  // ----- short flags -----

  datatype GrepOpts = GrepOpts(
    recursive: bool, lineNumbers: bool, filesOnly: bool, count: bool, ignoreCase: bool,
    word: bool, fixed: bool, withFilename: bool, noFilename: bool, positionals: seq<string>)

  const NO_OPTS := GrepOpts(false, false, false, false, false, false, false, false, false, [])

  predicate IsFlagArg(a: string) { |a| > 1 && a[0] == '-' }

  predicate IsKnownFlag(c: char, allowRecursive: bool) {
    (allowRecursive && (c == 'r' || c == 'R'))
    || c == 'I' || c == 's' || c == 'H' || c == 'h' || c == 'n' || c == 'l' || c == 'c' || c == 'i' || c == 'w' ||
        c == 'F'
  }

  function TakeFlag(o: GrepOpts, c: char, allowRecursive: bool): Option<GrepOpts> {
    if (c == 'r' || c == 'R') && allowRecursive then Some(o.(recursive := true))
    else if c == 'I' || c == 's' then Some(o)
    else if c == 'H' then Some(o.(withFilename := true))
    else if c == 'h' then Some(o.(noFilename := true))
    else if c == 'n' then Some(o.(lineNumbers := true))
    else if c == 'l' then Some(o.(filesOnly := true))
    else if c == 'c' then Some(o.(count := true))
    else if c == 'i' then Some(o.(ignoreCase := true))
    else if c == 'w' then Some(o.(word := true))
    else if c == 'F' then Some(o.(fixed := true))
    else None
  }

  function TakeFlags(o: GrepOpts, flags: string, allowRecursive: bool): Option<GrepOpts>
    decreases |flags|
  {
    if flags == "" then Some(o)
    else
      match TakeFlag(o, flags[0], allowRecursive)
      case None => None
      case Some(o') => TakeFlags(o', flags[1..], allowRecursive)
  }

  function TakeArg(o: GrepOpts, a: string, allowRecursive: bool): Option<GrepOpts> {
    if StartsWith(a, "--") then None
    else if |a| > 1 && StartsWith(a, "-") then TakeFlags(o, a[1..], allowRecursive)
    else Some(o.(positionals := o.positionals + [a]))
  }

  function TakeArgs(o: GrepOpts, args: seq<string>, allowRecursive: bool): Option<GrepOpts>
    decreases |args|
  {
    if args == [] then Some(o)
    else
      match TakeArg(o, args[0], allowRecursive)
      case None => None
      case Some(o') => TakeArgs(o', args[1..], allowRecursive)
  }

  function ShortFlags(args: seq<string>, allowRecursive: bool): Option<GrepOpts> {
    TakeArgs(NO_OPTS, args, allowRecursive)
  }

  lemma {:induction false} TakeFlagsConcat(o: GrepOpts, a: string, b: string, allowRecursive: bool)
    ensures TakeFlags(o, a + b, allowRecursive) ==
            match TakeFlags(o, a, allowRecursive)
            case None => None
            case Some(o') => TakeFlags(o', b, allowRecursive)
    decreases |a|
  {
    if a == "" {
      assert a + b == b;
    } else {
      assert (a + b)[1..] == a[1..] + b;
      var next := TakeFlag(o, a[0], allowRecursive);
      if next.Some? {
        TakeFlagsConcat(next.value, a[1..], b, allowRecursive);
      }
    }
  }

  lemma {:induction false} TakeArgsConcat(o: GrepOpts, a: seq<string>, b: seq<string>, allowRecursive: bool)
    ensures TakeArgs(o, a + b, allowRecursive) ==
            match TakeArgs(o, a, allowRecursive)
            case None => None
            case Some(o') => TakeArgs(o', b, allowRecursive)
    decreases |a|
  {
    hide TakeArg;
    if a == [] {
      assert a + b == b;
    } else {
      assert (a + b)[1..] == a[1..] + b;
      var next := TakeArg(o, a[0], allowRecursive);
      if next.Some? {
        TakeArgsConcat(next.value, a[1..], b, allowRecursive);
      }
    }
  }

  /** One more character of a flag group; a character that is refused refuses the group. */
  lemma FlagStep(o: GrepOpts, a: string, j: nat, allowRecursive: bool)
    requires 1 <= j < |a| && TakeFlags(o, a[1..j], allowRecursive).Some?
    ensures var next := TakeFlag(TakeFlags(o, a[1..j], allowRecursive).value, a[j], allowRecursive);
            && TakeFlags(o, a[1..j + 1], allowRecursive) == next
            && (next.None? ==> TakeFlags(o, a[1..], allowRecursive) == None)
  {
    hide TakeFlag;
    assert a[1..j + 1] == a[1..j] + [a[j]];
    TakeFlagsConcat(o, a[1..j], [a[j]], allowRecursive);
    TakeFlagsConcat(o, a[1..j] + [a[j]], a[j + 1..], allowRecursive);
    assert a[1..] == a[1..j] + [a[j]] + a[j + 1..];
    assert [a[j]][1..] == "";
  }

  /** One more argument; an argument that is refused refuses the list. */
  lemma ArgStep(args: seq<string>, i: nat, allowRecursive: bool)
    requires i < |args| && TakeArgs(NO_OPTS, args[..i], allowRecursive).Some?
    ensures var next := TakeArg(TakeArgs(NO_OPTS, args[..i], allowRecursive).value, args[i], allowRecursive);
            && TakeArgs(NO_OPTS, args[..i + 1], allowRecursive) == next
            && (next.None? ==> TakeArgs(NO_OPTS, args, allowRecursive) == None)
  {
    hide TakeArg;
    assert args[..i + 1] == args[..i] + [args[i]];
    TakeArgsConcat(NO_OPTS, args[..i], [args[i]], allowRecursive);
    TakeArgsConcat(NO_OPTS, args[..i] + [args[i]], args[i + 1..], allowRecursive);
    assert args == args[..i] + [args[i]] + args[i + 1..];
    assert [args[i]][1..] == [];
  }

  /** The nested loops of `parse_short_flags`. */
  method ParseShortFlags(args: seq<string>, allowRecursive: bool) returns (r: Option<GrepOpts>)
    ensures r == ShortFlags(args, allowRecursive)
  {
    var o := NO_OPTS;
    assert TakeArgs(NO_OPTS, args[..0], allowRecursive) == Some(o);
    for i := 0 to |args|
      invariant TakeArgs(NO_OPTS, args[..i], allowRecursive) == Some(o)
    {
      var a := args[i];
      ghost var before := o;
      ArgStep(args, i, allowRecursive);
      hide TakeArgs, TakeFlag;
      if StartsWith(a, "--") {
        return None;
      }
      if |a| > 1 && StartsWith(a, "-") {
        for j := 1 to |a|
          invariant TakeFlags(before, a[1..j], allowRecursive) == Some(o)
        {
          FlagStep(before, a, j, allowRecursive);
          var taken := TakeFlag(o, a[j], allowRecursive);
          if taken.None? {
            return None;
          }
          o := taken.value;
        }
        assert a[1..|a|] == a[1..];
      } else {
        o := o.(positionals := o.positionals + [a]);
      }
    }
    assert args[..|args|] == args;
    return Some(o);
  }

  // ----- what the flags mean -----

  function Chars(s: string): set<char> {
    if s == "" then {} else {s[0]} + Chars(s[1..])
  }

  /** The characters given as flags, in any grouping. */
  function FlagChars(args: seq<string>): set<char> {
    if args == [] then {}
    else (if IsFlagArg(args[0]) then Chars(args[0][1..]) else {}) + FlagChars(args[1..])
  }

  function Positionals(args: seq<string>): seq<string> {
    if args == [] then []
    else (if IsFlagArg(args[0]) then [] else [args[0]]) + Positionals(args[1..])
  }

  predicate AllKnown(flags: set<char>, allowRecursive: bool) {
    forall c :: c in flags ==> IsKnownFlag(c, allowRecursive)
  }

  /** The options that a set of flag characters asks for. */
  function OptsOf(flags: set<char>, positionals: seq<string>): GrepOpts {
    GrepOpts('r' in flags || 'R' in flags, 'n' in flags, 'l' in flags, 'c' in flags, 'i' in flags,
             'w' in flags, 'F' in flags, 'H' in flags, 'h' in flags, positionals)
  }

  lemma TakeFlagMeaning(flags: set<char>, positionals: seq<string>, c: char, allowRecursive: bool)
    ensures TakeFlag(OptsOf(flags, positionals), c, allowRecursive) ==
            if IsKnownFlag(c, allowRecursive) then Some(OptsOf(flags + {c}, positionals)) else None
  {
    assert forall d :: d in flags + {c} <==> d in flags || d == c;
    if c == 'r' || c == 'R' {
    } else if c == 'I' || c == 's' || c == 'H' || c == 'h' {
    } else if c == 'n' || c == 'l' || c == 'c' {
    } else if c == 'i' || c == 'w' || c == 'F' {
    } else {
    }
  }

  lemma {:induction false} TakeFlagsMeaning(flags: set<char>, positionals: seq<string>, more: string,
      allowRecursive: bool)
    ensures TakeFlags(OptsOf(flags, positionals), more, allowRecursive) ==
            if AllKnown(Chars(more), allowRecursive) then Some(OptsOf(flags + Chars(more), positionals)) else None
    decreases |more|
  {
    hide IsKnownFlag, TakeFlag, OptsOf;
    if more == "" {
      assert flags + {} == flags;
    } else {
      TakeFlagMeaning(flags, positionals, more[0], allowRecursive);
      TakeFlagsMeaning(flags + {more[0]}, positionals, more[1..], allowRecursive);
      assert flags + {more[0]} + Chars(more[1..]) == flags + Chars(more);
    }
  }

  /** The test for a long flag adds nothing: a second dash is an unknown flag anyway. */
  lemma LongFlagIsUnknown(a: string, allowRecursive: bool)
    ensures IsFlagArg(a) <==> |a| > 1 && StartsWith(a, "-")
    ensures StartsWith(a, "--") ==> IsFlagArg(a) && !AllKnown(Chars(a[1..]), allowRecursive)
  {
    if |a| > 1 {
      assert a[..1] == [a[0]];
    }
    if StartsWith(a, "--") {
      assert a[..2][0] == '-' && a[..2][1] == '-';
      assert '-' in Chars(a[1..]);
    }
  }

  lemma TakeArgMeaning(flags: set<char>, positionals: seq<string>, a: string, allowRecursive: bool)
    ensures TakeArg(OptsOf(flags, positionals), a, allowRecursive) ==
            if !IsFlagArg(a) then Some(OptsOf(flags, positionals + [a]))
            else if AllKnown(Chars(a[1..]), allowRecursive) then Some(OptsOf(flags + Chars(a[1..]), positionals))
            else None
  {
    hide AllKnown;
    LongFlagIsUnknown(a, allowRecursive);
    if IsFlagArg(a) {
      TakeFlagsMeaning(flags, positionals, a[1..], allowRecursive);
    }
  }

  lemma {:induction false} TakeArgsMeaning(flags: set<char>, positionals: seq<string>, args: seq<string>,
      allowRecursive: bool)
    ensures TakeArgs(OptsOf(flags, positionals), args, allowRecursive) ==
            if AllKnown(FlagChars(args),
                allowRecursive) then Some(OptsOf(flags + FlagChars(args), positionals + Positionals(args)))
            else None
    decreases |args|
  {
    hide IsKnownFlag, TakeArg, OptsOf;
    if args == [] {
      assert flags + {} == flags;
      assert positionals + [] == positionals;
    } else {
      var a, rest := args[0], args[1..];
      TakeArgMeaning(flags, positionals, a, allowRecursive);
      if IsFlagArg(a) {
        TakeArgsMeaning(flags + Chars(a[1..]), positionals, rest, allowRecursive);
        assert flags + Chars(a[1..]) + FlagChars(rest) == flags + FlagChars(args);
        assert Positionals(args) == Positionals(rest);
      } else {
        TakeArgsMeaning(flags, positionals + [a], rest, allowRecursive);
        assert FlagChars(args) == FlagChars(rest);
        assert positionals + [a] + Positionals(rest) == positionals + Positionals(args);
      }
    }
  }

  /**
   * The flag parser accepts exactly the argument lists whose flag characters are all
   * known; then every option is set exactly when its character was given, and the
   * positionals are the other arguments in order.
   */
  lemma ShortFlagsMeaning(args: seq<string>, allowRecursive: bool)
    ensures ShortFlags(args, allowRecursive) ==
            if AllKnown(FlagChars(args), allowRecursive) then Some(OptsOf(FlagChars(args), Positionals(args))) else None
  {
    hide TakeArgs;
    assert NO_OPTS == OptsOf({}, []);
    TakeArgsMeaning({}, [], args, allowRecursive);
    assert [] + Positionals(args) == Positionals(args);
    assert {} + FlagChars(args) == FlagChars(args);
  }
}
