/** Splitting, joining and searching text, as the Rust standard library does it. */
module Text {
  /** `str::starts_with` on a byte or character sequence, at position `i`. */
  predicate Matches<T(==)>(s: seq<T>, i: nat, pattern: seq<T>) {
    i + |pattern| <= |s| && s[i..i + |pattern|] == pattern
  }

  predicate StartsWith<T(==)>(s: seq<T>, prefix: seq<T>) {
    |prefix| <= |s| && s[..|prefix|] == prefix
  }

  predicate EndsWith<T(==)>(s: seq<T>, suffix: seq<T>) {
    |suffix| <= |s| && s[|s| - |suffix|..] == suffix
  }

  predicate Contains<T(==)>(s: seq<T>, pattern: seq<T>) {
    exists i :: 0 <= i <= |s| && Matches(s, i, pattern)
  }

  /** Prefix, suffix and substring, each with what is left over. */
  lemma PrefixIff<T>(s: seq<T>, prefix: seq<T>)
    ensures StartsWith(s, prefix) <==> exists rest :: s == prefix + rest
  {
    if StartsWith(s, prefix) {
      assert s == prefix + s[|prefix|..];
    }
  }

  lemma SuffixIff<T>(s: seq<T>, suffix: seq<T>)
    ensures EndsWith(s, suffix) <==> exists rest :: s == rest + suffix
  {
    if EndsWith(s, suffix) {
      assert s == s[..|s| - |suffix|] + suffix;
    }
  }

  lemma ContainsIff<T>(s: seq<T>, pattern: seq<T>)
    ensures Contains(s, pattern) <==> exists a, b :: s == a + pattern + b
  {
    if i :| 0 <= i <= |s| && Matches(s, i, pattern) {
      CutAt(s, i, pattern);
    }
    if a, b :| s == a + pattern + b {
      assert s[|a|..|a| + |pattern|] == pattern;
      assert Matches(s, |a|, pattern);
    }
  }

  lemma CutAt<T>(s: seq<T>, i: nat, pattern: seq<T>)
    requires Matches(s, i, pattern)
    ensures s == s[..i] + pattern + s[i + |pattern|..]
  {
  }

  /** `str::split(sep)`: the pieces between separators; never empty. */
  function Split<T(==)>(s: seq<T>, sep: T): (parts: seq<seq<T>>)
    ensures |parts| >= 1
  {
    if s == [] then [[]]
    else
      var rest := Split(s[1..], sep);
      if s[0] == sep then [[]] + rest else Extend(s[0], rest)
  }

  /** Put one more element in front of the first piece. */
  function Extend<T>(c: T, parts: seq<seq<T>>): seq<seq<T>>
    requires |parts| >= 1
  {
    [[c] + parts[0]] + parts[1..]
  }

  /** `[_]::join` with a one-element separator. */
  function Join<T>(parts: seq<seq<T>>, sep: T): seq<T> {
    if |parts| == 0 then []
    else if |parts| == 1 then parts[0]
    else parts[0] + [sep] + Join(parts[1..], sep)
  }

  lemma {:induction false} SplitPiecesLackSeparator<T>(s: seq<T>, sep: T)
    ensures forall p :: p in Split(s, sep) ==> sep !in p
  {
    if s != [] {
      SplitPiecesLackSeparator(s[1..], sep);
      var rest := Split(s[1..], sep);
      assert rest[0] in rest;
    }
  }

  lemma {:induction false} JoinOfSplit<T>(s: seq<T>, sep: T)
    ensures Join(Split(s, sep), sep) == s
  {
    if s != [] {
      JoinOfSplit(s[1..], sep);
      var rest := Split(s[1..], sep);
      if s[0] == sep {
        assert ([[]] + rest)[1..] == rest;
      } else {
        var parts := Extend(s[0], rest);
        assert parts[1..] == rest[1..];
        if |rest| == 1 {
          assert Join(parts, sep) == [s[0]] + rest[0];
        } else {
          assert Join(parts, sep) == [s[0]] + rest[0] + [sep] + Join(rest[1..], sep);
          assert Join(rest, sep) == rest[0] + [sep] + Join(rest[1..], sep);
        }
      }
      assert s == [s[0]] + s[1..];
    }
  }

  lemma {:induction false} SplitWithoutSeparator<T>(s: seq<T>, sep: T)
    requires sep !in s
    ensures Split(s, sep) == [s]
  {
    if s != [] {
      SplitWithoutSeparator(s[1..], sep);
      assert s == [s[0]] + s[1..];
    }
  }

  lemma SplitStep<T>(s: seq<T>, sep: T)
    requires s != []
    ensures Split(s, sep) == if s[0] == sep then [[]] + Split(s[1..], sep) else Extend(s[0], Split(s[1..], sep))
  {
  }

  lemma ExtendOfConcat<T>(c: T, a: seq<seq<T>>, b: seq<seq<T>>)
    requires |a| >= 1
    ensures Extend(c, a + b) == Extend(c, a) + b
  {
    assert (a + b)[1..] == a[1..] + b;
  }

  lemma {:induction false} SplitOfConcat<T>(a: seq<T>, b: seq<T>, sep: T)
    ensures Split(a + [sep] + b, sep) == Split(a, sep) + Split(b, sep)
  {
    hide Split, Extend;
    var s := a + [sep] + b;
    SplitStep(s, sep);
    if a == [] {
      assert s[1..] == b;
      SplitWithoutSeparator(a, sep);
    } else {
      var left, right := Split(a[1..], sep), Split(b, sep);
      SplitOfConcat(a[1..], b, sep);
      assert s[1..] == a[1..] + [sep] + b;
      SplitStep(a, sep);
      ExtendOfConcat(a[0], left, right);
      assert [[]] + (left + right) == ([[]] + left) + right;
    }
  }

  lemma {:induction false} SplitOfJoin<T>(parts: seq<seq<T>>, sep: T)
    requires |parts| >= 1
    requires forall p :: p in parts ==> sep !in p
    ensures Split(Join(parts, sep), sep) == parts
  {
    assert parts[0] in parts;
    SplitWithoutSeparator(parts[0], sep);
    if |parts| == 1 {
      assert parts == [parts[0]];
    } else {
      SplitOfJoin(parts[1..], sep);
      SplitOfConcat(parts[0], Join(parts[1..], sep), sep);
      assert parts == [parts[0]] + parts[1..];
    }
  }

  lemma {:induction false} JoinOfConcat<T>(a: seq<seq<T>>, b: seq<seq<T>>, sep: T)
    requires |a| >= 1 && |b| >= 1
    ensures Join(a + b, sep) == Join(a, sep) + [sep] + Join(b, sep)
  {
    assert (a + b)[1..] == a[1..] + b;
    if |a| > 1 {
      JoinOfConcat(a[1..], b, sep);
    } else {
      assert (a + b)[1..] == b;
    }
  }

  /** Elements of a split text avoid whatever the text avoids. */
  lemma {:induction false} SplitPiecesKeep<T(!new)>(s: seq<T>, sep: T, keep: T -> bool)
    requires forall c :: c in s ==> keep(c)
    ensures forall p, c :: p in Split(s, sep) && c in p ==> keep(c)
  {
    if s != [] {
      assert forall c :: c in s[1..] ==> c in s;
      SplitPiecesKeep(s[1..], sep, keep);
      var rest := Split(s[1..], sep);
      assert rest[0] in rest;
      assert s[0] in s;
    }
  }

  /** `str::to_ascii_lowercase` on one character. */
  function LowerChar(c: char): char {
    if 'A' <= c <= 'Z' then c - 'A' + 'a' else c
  }

  function Lower(s: string): (lower: string)
    ensures |lower| == |s|
    ensures forall i :: 0 <= i < |s| ==> lower[i] == LowerChar(s[i])
  {
    if s == [] then [] else [LowerChar(s[0])] + Lower(s[1..])
  }

  /** Unicode White_Space, as `char::is_whitespace` tests it. */
  predicate IsWhitespace(c: char) {
    ('\U{0009}' <= c <= '\U{000D}') || c == ' ' || c == '\U{0085}' || c == '\U{00A0}' || c == '\U{1680}'
    || ('\U{2000}' <= c <= '\U{200A}') || c == '\U{2028}' || c == '\U{2029}' || c == '\U{202F}'
    || c == '\U{205F}' || c == '\U{3000}'
  }

  /** The characters with the Unicode property White_Space, by number. */
  lemma WhitespaceIff(c: char)
    ensures IsWhitespace(c) <==>
            c as int in {
              0x09, 0x0A, 0x0B, 0x0C, 0x0D, 0x20, 0x85, 0xA0, 0x1680, 0x2000, 0x2001, 0x2002, 0x2003, 0x2004, 0x2005,
              0x2006, 0x2007, 0x2008, 0x2009, 0x200A, 0x2028, 0x2029, 0x202F, 0x205F, 0x3000
            }
  {
  }

  /** `str::trim` */
  function Trim(s: string): string
    decreases |s|
  {
    if s == "" then ""
    else if IsWhitespace(s[0]) then Trim(s[1..])
    else if IsWhitespace(s[|s| - 1]) then Trim(s[..|s| - 1])
    else s
  }

  predicate IsBlank(s: string) { forall i :: 0 <= i < |s| ==> IsWhitespace(s[i]) }

  /** No white space at either end. */
  predicate IsTrimmed(s: string) { s == "" || (!IsWhitespace(s[0]) && !IsWhitespace(s[|s| - 1])) }

  lemma TrimStep(s: string)
    ensures if s == "" then Trim(s) == ""
            else if IsWhitespace(s[0]) then Trim(s) == Trim(s[1..])
            else if IsWhitespace(s[|s| - 1]) then Trim(s) == Trim(s[..|s| - 1])
            else Trim(s) == s && IsTrimmed(s)
  {
    hide IsWhitespace;
  }

  lemma BlankAround(c: char, s: string)
    requires IsWhitespace(c) && IsBlank(s)
    ensures IsBlank([c] + s) && IsBlank(s + [c])
  {
    hide IsWhitespace;
  }

  /** Trimming takes away white space and nothing else, and leaves none at the ends. */
  lemma {:induction false} TrimTakesBlanks(s: string) returns (left: string, right: string)
    ensures s == left + Trim(s) + right && IsBlank(left) && IsBlank(right) && IsTrimmed(Trim(s))
    decreases |s|
  {
    hide IsWhitespace, Trim, IsBlank;
    TrimStep(s);
    assert IsBlank("") by {
      NothingIsBlank();
    }
    left, right := "", "";
    if s == "" {
      assert s == left + Trim(s) + right;
    } else if IsWhitespace(s[0]) {
      var l, r := TrimTakesBlanks(s[1..]);
      BlankAround(s[0], l);
      left, right := [s[0]] + l, r;
      assert s == [s[0]] + s[1..];
    } else if IsWhitespace(s[|s| - 1]) {
      var l, r := TrimTakesBlanks(s[..|s| - 1]);
      BlankAround(s[|s| - 1], r);
      left, right := l, r + [s[|s| - 1]];
      assert s == s[..|s| - 1] + [s[|s| - 1]];
    }
  }

  lemma NothingIsBlank()
    ensures IsBlank("")
  {
  }

  /** `strip_suffix` of one character. */
  function StripLast(s: string, c: char): string {
    if |s| > 0 && s[|s| - 1] == c then s[..|s| - 1] else s
  }
}
