/** Outbound hosts: the allowlist, redirect chains under it, and the rotating egress log. */
module Netlog {
  import opened Results
  import opened Text

  datatype Mode = Deny | LogOnly | Audit

  /** Exact hosts, and suffixes that start with a dot. */
  datatype Allowlist = Allowlist(exact: set<string>, suffixes: seq<string>)

  // ----- parsing -----

  /** `str::lines` */
  function TextLines(text: string): seq<string> {
    var parts := Split(text, '\n');
    if parts[|parts| - 1] == "" then parts[..|parts| - 1] else parts
  }

  /** A line without its comment, trimmed and in lower case. */
  function Entry(line: string): string { Lower(Trim(Split(StripLast(line, '\r'), '#')[0])) }

  /** `small` is `s` with every ASCII capital made small. */
  predicate IsLowered(small: string, s: string) {
    |small| == |s| && forall i :: 0 <= i < |s| ==> small[i] == if 'A' <= s[i] <= 'Z' then s[i] - 'A' + 'a' else s[i]
  }

  /** The lines of the file, each ended by a newline or the end of the text, spell the text. */
  lemma LinesSpellTheText(text: string)
    ensures forall l :: l in TextLines(text) ==> '\n' !in l
    ensures text == Join(TextLines(text), '\n') + (if EndsWith(text, "\n") then "\n" else "")
  {
    hide Split, Join;
    SplitPiecesLackSeparator(text, '\n');
    JoinOfSplit(text, '\n');
    var parts := Split(text, '\n');
    if EndsWith(text, "\n") {
      var front := text[..|text| - 1];
      assert text == front + ['\n'] + "";
      SplitOfConcat(front, "", '\n');
      SplitWithoutSeparator("", '\n');
      assert parts[..|parts| - 1] == Split(front, '\n');
      JoinOfSplit(front, '\n');
    } else {
      assert text + "" == text;
      LastPart(text);
    }
  }

  lemma LastPart(text: string)
    requires !EndsWith(text, "\n")
    ensures var parts := Split(text, '\n');
            parts[|parts| - 1] == "" ==> text == "" && parts == [""] && Join([], '\n') == text
  {
    var parts := Split(text, '\n');
    JoinOfSplit(text, '\n');
    hide Split, Join;
    if parts[|parts| - 1] == "" {
      var front := parts[..|parts| - 1];
      assert parts == front + [""];
      JoinOfNothing();
      if front != [] {
        JoinOfConcat(front, [""], '\n');
      }
    }
  }

  lemma JoinOfNothing()
    ensures Join([""], '\n') == "" && Join([], '\n') == ""
  {
  }

  /**
   * An entry is what a line holds before the first `#`, without the white space around it and in small letters;
   * what follows is a comment.
   */
  lemma EntryOfLine(line: string) returns (left: string, host: string, right: string, comment: string)
    ensures line == left + host + right + comment
    ensures '#' !in left + host + right && (comment == "" || comment[0] == '#' || comment == "\r")
    ensures IsBlank(left) && IsBlank(right) && IsTrimmed(host)
    ensures IsLowered(Entry(line), host)
  {
    hide Split, Trim, IsWhitespace;
    var ending := if EndsWith(line, "\r") then "\r" else "";
    var text := StripLast(line, '\r');
    assert line == text + ending;
    var parts := Split(text, '#');
    SplitPiecesLackSeparator(text, '#');
    assert parts[0] in parts;
    comment := AfterFirst(text) + ending;
    left, right := TrimTakesBlanks(parts[0]);
    host := Trim(parts[0]);
    assert left + host + right == parts[0];
    assert AfterFirst(text) == "" ==> comment == ending;
  }

  /** What follows the first piece. */
  function AfterFirst(text: string): (rest: string)
    ensures text == Split(text, '#')[0] + rest && (rest == "" || rest[0] == '#')
  {
    FirstPiece(text);
    text[|Split(text, '#')[0]|..]
  }

  lemma FirstPiece(text: string)
    ensures var first := Split(text, '#')[0];
            |first| <= |text| && text[..|first|] == first && (|first| < |text| ==> text[|first|] == '#')
  {
    var parts := Split(text, '#');
    JoinOfSplit(text, '#');
  }

  /** The non-empty entries of the first lines. */
  function Entries(lines: seq<string>): seq<string> {
    if lines == [] then []
    else
      var entry := Entry(lines[|lines| - 1]);
      Entries(lines[..|lines| - 1]) + (if entry == "" then [] else [entry])
  }

  predicate IsWildcard(entry: string) { StartsWith(entry, "*.") || StartsWith(entry, ".") }

  /** What a wildcard entry stands for, without the star and the dot. */
  function Base(entry: string): string
    requires IsWildcard(entry)
  {
    if StartsWith(entry, "*.") then entry[2..] else entry[1..]
  }

  function Suffixes(entries: seq<string>): seq<string> {
    if entries == [] then []
    else
      var last := entries[|entries| - 1];
      Suffixes(entries[..|entries| - 1]) + (if IsWildcard(last) then ["." + Base(last)] else [])
  }

  function Exact(entries: seq<string>): set<string> { set e | e in entries && !IsWildcard(e) }

  function Parsed(text: string): Allowlist {
    var entries := Entries(TextLines(text));
    Allowlist(Exact(entries), Suffixes(entries))
  }

  lemma EntriesSnoc(lines: seq<string>, k: nat)
    requires k < |lines|
    ensures Entries(lines[..k + 1]) == Entries(lines[..k]) + (if Entry(lines[k]) == "" then [] else [Entry(lines[k])])
  {
    assert lines[..k + 1][..k] == lines[..k];
  }

  predicate HasEntry(lines: seq<string>, e: string) { exists i :: 0 <= i < |lines| && Entry(lines[i]) == e }

  /** Blank lines and lines that are all comment give no entry; every other line gives one. */
  lemma {:induction false} EntriesAre(lines: seq<string>)
    ensures forall e :: e in Entries(lines) <==> e != "" && HasEntry(lines, e)
    decreases |lines|
  {
    hide Entry;
    if lines != [] {
      var n := |lines| - 1;
      EntriesAre(lines[..n]);
      forall e ensures HasEntry(lines, e) <==> Entry(lines[n]) == e || HasEntry(lines[..n], e) {
        if i :| 0 <= i < |lines| && Entry(lines[i]) == e && i < n {
          assert Entry(lines[..n][i]) == e;
        }
        if i :| 0 <= i < n && Entry(lines[..n][i]) == e {
          assert Entry(lines[i]) == e;
        }
      }
    }
  }

  lemma AddEntry(entries: seq<string>, entry: string)
    ensures Suffixes(entries + [entry]) == Suffixes(entries) + (if IsWildcard(entry) then ["." + Base(entry)] else [])
    ensures Exact(entries + [entry]) == Exact(entries) + (if IsWildcard(entry) then {} else {entry})
  {
    assert (entries + [entry])[..|entries|] == entries;
    hide IsWildcard;
    assert forall e :: e in entries + [entry] <==> e in entries || e == entry;
  }

  /** The three arms of the parser's test. */
  lemma EntryKind(entry: string)
    ensures StartsWith(entry, "*.") ==> IsWildcard(entry) && Base(entry) == entry[2..]
    ensures !StartsWith(entry, "*.") && StartsWith(entry, ".") ==> IsWildcard(entry) && "." + Base(entry) == entry
    ensures !StartsWith(entry, "*.") && !StartsWith(entry, ".") ==> !IsWildcard(entry)
  {
  }

  lemma NoEntries()
    ensures Entries([]) == [] && Exact([]) == {} && Suffixes([]) == []
  {
  }

  /** `Allowlist::parse` */
  method ParseAllowlist(text: string) returns (list: Allowlist)
    ensures list == Parsed(text)
  {
    hide Entry, Entries, Exact, Suffixes, IsWildcard, Base, TextLines;
    var lines := TextLines(text);
    var exact: set<string>, suffixes: seq<string> := {}, [];
    assert lines[..0] == [];
    NoEntries();
    for i := 0 to |lines|
      invariant exact == Exact(Entries(lines[..i])) && suffixes == Suffixes(Entries(lines[..i]))
    {
      var entry := Entry(lines[i]);
      EntriesSnoc(lines, i);
      EntryKind(entry);
      if entry != "" {
        AddEntry(Entries(lines[..i]), entry);
        if StartsWith(entry, "*.") {
          suffixes := suffixes + ["." + entry[2..]];
        } else if StartsWith(entry, ".") {
          suffixes := suffixes + [entry];
        } else {
          exact := exact + {entry};
        }
      } else {
        assert Entries(lines[..i]) + [] == Entries(lines[..i]);
      }
    }
    assert lines[..|lines|] == lines;
    return Allowlist(exact, suffixes);
  }

  // ----- matching -----

  /** `trim_end_matches('.')` */
  function TrimDots(host: string): string {
    if |host| > 0 && host[|host| - 1] == '.' then TrimDots(host[..|host| - 1]) else host
  }

  function Normal(host: string): string { Lower(TrimDots(host)) }

  /** The normal form is the host in small letters, without the dots at its end. */
  lemma NormalOfHost(host: string) returns (name: string, dots: string)
    ensures host == name + dots && (forall i :: 0 <= i < |dots| ==> dots[i] == '.') && !EndsWith(name, ".")
    ensures IsLowered(Normal(host), name)
  {
    dots := TrimDotsTakesDots(host);
    name := TrimDots(host);
  }

  lemma {:induction false} TrimDotsTakesDots(host: string) returns (dots: string)
    ensures host == TrimDots(host) + dots && forall i :: 0 <= i < |dots| ==> dots[i] == '.'
    ensures !EndsWith(TrimDots(host), ".")
    decreases |host|
  {
    dots := "";
    if |host| > 0 && host[|host| - 1] == '.' {
      dots := TrimDotsTakesDots(host[..|host| - 1]);
      dots := dots + ".";
      assert host == host[..|host| - 1] + ".";
    }
  }

  /** `Allowlist::allows` */
  predicate Allows(list: Allowlist, host: string)
    requires forall i :: 0 <= i < |list.suffixes| ==> |list.suffixes[i]| > 0
  {
    var h := Normal(host);
    h != "" && (
      || h in list.exact
      || exists i ::
           0 <= i < |list.suffixes| && (EndsWith(h, list.suffixes[i]) || h == list.suffixes[i][1..]))
  }

  function Labels(host: string): seq<string> { Split(host, '.') }

  /** The host is the wildcard's base or lies below it, label by label. */
  predicate IsUnder(h: string, base: string) { EndsWith(Labels(h), Labels(base)) }

  lemma UnderBySuffix(h: string, base: string)
    requires EndsWith(h, "." + base) || h == base
    ensures IsUnder(h, base)
  {
    hide Split;
    if h == base {
      assert Labels(h)[0..] == Labels(base);
    } else {
      var front := h[..|h| - |base| - 1];
      assert h == front + ['.'] + base;
      SplitOfConcat(front, base, '.');
    }
  }

  lemma SuffixByUnder(h: string, base: string)
    ensures IsUnder(h, base) ==> EndsWith(h, "." + base) || h == base
  {
    hide Split, Join;
    var labels, tail := Labels(h), Labels(base);
    if IsUnder(h, base) {
      var above := labels[..|labels| - |tail|];
      assert labels == above + tail;
      JoinOfSplit(h, '.');
      JoinOfSplit(base, '.');
      if above == [] {
        assert labels == tail;
      } else {
        JoinOfConcat(above, tail, '.');
        assert h == Join(above, '.') + ("." + base);
      }
    }
  }

  lemma SuffixIffLabels(h: string, base: string)
    ensures EndsWith(h, "." + base) || h == base <==> IsUnder(h, base)
  {
    hide IsUnder, EndsWith;
    if EndsWith(h, "." + base) || h == base {
      UnderBySuffix(h, base);
    }
    if IsUnder(h, base) {
      SuffixByUnder(h, base);
    }
  }

  /** The wildcard entry behind a suffix. */
  lemma {:induction false} EntryOfSuffix(entries: seq<string>, i: nat) returns (e: string)
    requires i < |Suffixes(entries)|
    ensures e in entries && IsWildcard(e) && Suffixes(entries)[i] == "." + Base(e)
    decreases |entries|
  {
    hide IsWildcard, Base;
    var front, last := entries[..|entries| - 1], entries[|entries| - 1];
    if i < |Suffixes(front)| {
      e := EntryOfSuffix(front, i);
    } else {
      e := last;
    }
  }

  lemma {:induction false} SuffixOfEntry(entries: seq<string>, e: string)
    requires e in entries && IsWildcard(e)
    ensures "." + Base(e) in Suffixes(entries)
    decreases |entries|
  {
    hide IsWildcard, Base;
    var front, last := entries[..|entries| - 1], entries[|entries| - 1];
    assert entries == front + [last];
    if e in front {
      SuffixOfEntry(front, e);
    } else {
      assert e == last;
    }
  }

  /** The entry matches the normalised host: exactly, or by its trailing labels. */
  predicate EntryMatches(entry: string, h: string) {
    if IsWildcard(entry) then IsUnder(h, Base(entry)) else h == entry
  }

  /**
   * A host is allowed exactly when its normal form is not empty and equals an exact
   * entry or ends, label by label, with the labels of a wildcard entry.
   */
  lemma AllowsIffEntryMatches(text: string, host: string)
    ensures forall i :: 0 <= i < |Parsed(text).suffixes| ==> |Parsed(text).suffixes[i]| > 0
    ensures Allows(Parsed(text), host) <==>
            Normal(host) != "" && exists e :: e in Entries(TextLines(text)) && EntryMatches(e, Normal(host))
  {
    var entries := Entries(TextLines(text));
    var h := Normal(host);
    var suffixes := Suffixes(entries);
    hide Entries, TextLines, IsWildcard, Base, IsUnder, Suffixes, EndsWith;
    forall i | 0 <= i < |suffixes| ensures |suffixes[i]| > 0 {
      var e := EntryOfSuffix(entries, i);
    }
    forall e | e in entries && IsWildcard(e)
      ensures IsUnder(h, Base(e)) <==> EndsWith(h, "." + Base(e)) || h == ("." + Base(e))[1..]
    {
      SuffixIffLabels(h, Base(e));
      assert ("." + Base(e))[1..] == Base(e);
    }
    if e :| e in entries && EntryMatches(e, h) {
      if IsWildcard(e) {
        SuffixOfEntry(entries, e);
        var i :| 0 <= i < |suffixes| && suffixes[i] == "." + Base(e);
        assert h != "" ==> Allows(Parsed(text), host);
      }
    }
    if Allows(Parsed(text), host) && h !in Exact(entries) {
      var i :| 0 <= i < |suffixes| && (EndsWith(h, suffixes[i]) || h == suffixes[i][1..]);
      var e := EntryOfSuffix(entries, i);
      assert EntryMatches(e, h);
    }
  }

  // ----- redirect chains -----

  datatype GuardError = Unlisted(host: string) | TooManyRedirects

  const MAX_REDIRECTS: nat := 10

  predicate WellFormed(list: Allowlist) { forall i :: 0 <= i < |list.suffixes| ==> |list.suffixes[i]| > 0 }

  /** `guard_with`: a URL without a host counts as the empty host. */
  function GuardWith(host: Option<string>, mode: Mode, allow: Allowlist): (r: Result<string, GuardError>)
    requires WellFormed(allow)
  {
    var h := match host case None => "" case Some(name) => name;
    if !Allows(allow, h) && mode == Deny then Err(Unlisted(h)) else Ok(h)
  }

  predicate FollowRedirect(host: string, mode: Mode, allow: Allowlist)
    requires WellFormed(allow)
  {
    Allows(allow, host) || mode != Deny
  }

  /** Why a chain that contacted these hosts went no further. */
  function ChainEnd(contacted: seq<string>, server: seq<string> -> Option<string>): Option<GuardError> {
    match server(contacted)
    case None => None
    case Some(next) => if |contacted| == MAX_REDIRECTS then Some(TooManyRedirects) else Some(Unlisted(next))
  }

  /**
   * One guarded request and the redirects it may follow. `server` says where the last
   * of the hosts contacted so far redirects to, if anywhere. `contacted` lists every
   * host a request went to.
   */
  method Request(first: Option<string>, server: seq<string> -> Option<string>, mode: Mode, allow: Allowlist)
    returns (contacted: seq<string>, error: Option<GuardError>)
    requires WellFormed(allow)
    ensures |contacted| <= 10 && (error == Some(TooManyRedirects) ==> |contacted| == 10)
    ensures mode == Deny ==> forall i :: 0 <= i < |contacted| ==> Allows(allow, contacted[i])
    ensures contacted != [] ==> contacted[0] == match first case None => "" case Some(name) => name
    ensures forall i :: 0 < i < |contacted| ==> server(contacted[..i]) == Some(contacted[i])
    ensures var name := match first case None => "" case Some(name) => name;
            && (contacted == [] <==> mode == Deny && !Allows(allow, name))
            && (contacted == [] ==> error == Some(Unlisted(name)))
    ensures contacted != [] ==> error == ChainEnd(contacted, server)
    ensures contacted != [] && error.Some? && error.value.Unlisted? ==> mode == Deny && !Allows(allow, error.value.host)
  {
    contacted := [];
    var guarded := GuardWith(first, mode, allow);
    if guarded.Err? {
      return [], Some(guarded.error);
    }
    contacted := [guarded.value];
    while true
      invariant 1 <= |contacted| <= MAX_REDIRECTS
      invariant mode == Deny ==> forall i :: 0 <= i < |contacted| ==> Allows(allow, contacted[i])
      invariant contacted[0] == guarded.value
      invariant forall i :: 0 < i < |contacted| ==> server(contacted[..i]) == Some(contacted[i])
      decreases MAX_REDIRECTS - |contacted|
    {
      var next := server(contacted);
      if next.None? {
        return contacted, None;
      }
      if |contacted| >= MAX_REDIRECTS {
        return contacted, Some(TooManyRedirects);
      }
      if !FollowRedirect(next.value, mode, allow) {
        return contacted, Some(Unlisted(next.value));
      }
      ghost var before := contacted;
      contacted := contacted + [next.value];
      assert forall i :: 0 < i < |before| ==> contacted[..i] == before[..i];
      assert contacted[..|before|] == before;
    }
  }

  // ----- the egress log -----

  function Size(lines: seq<string>): nat {
    if lines == [] then 0 else Size(lines[..|lines| - 1]) + |lines[|lines| - 1]| + 1
  }

  /** The log file and the one backup it rotates to, with the history of all records as ghost state. */
  class EgressLog {
    const cap: nat
    const maxLine: nat
    var log: seq<string>
    var backup: seq<string>
    ghost var history: seq<string>

    /** Nothing but whole oldest records is ever lost, and both files stay within the cap plus one record. */
    ghost predicate Valid()
      reads this
    {
      && EndsWith(history, backup + log)
      && Size(log) <= cap + maxLine + 1 && Size(backup) <= cap + maxLine + 1
    }

    constructor (cap: nat, maxLine: nat)
      ensures Valid() && log == [] && backup == [] && history == []
      ensures this.cap == cap && this.maxLine == maxLine
    {
      this.cap, this.maxLine := cap, maxLine;
      log, backup, history := [], [], [];
    }

    /** `record_to` */
    method RecordTo(line: string)
      requires Valid() && |line| <= maxLine
      modifies this
      ensures Valid() && history == old(history) + [line]
      ensures log == (if Size(old(log)) >= cap then [] else old(log)) + [line]
      ensures backup == if Size(old(log)) >= cap then old(log) else old(backup)
      ensures Size(log) <= cap + maxLine + 1 && Size(backup) <= cap + maxLine + 1
      ensures EndsWith(history, backup + log)
    {
      hide EndsWith, Size;
      SizeSnoc(log, line);
      SizeSnoc([], line);
      SizeOfNothing();
      DropFront(history, backup, log);
      if Size(log) >= cap {
        backup, log := log, [];
      }
      Snoc(history, backup + log, line);
      assert backup + (log + [line]) == backup + log + [line];
      log, history := log + [line], history + [line];
    }
  }

  lemma SizeOfNothing()
    ensures Size([]) == 0
  {
  }

  lemma SizeSnoc(lines: seq<string>, line: string)
    ensures Size(lines + [line]) == Size(lines) + |line| + 1
  {
    assert (lines + [line])[..|lines|] == lines;
  }

  lemma DropFront(history: seq<string>, a: seq<string>, b: seq<string>)
    requires EndsWith(history, a + b)
    ensures EndsWith(history, b + [])
  {
    assert history[|history| - |b|..] == history[|history| - |a + b|..][|a|..] == b;
    assert b + [] == b;
  }

  lemma Snoc(history: seq<string>, kept: seq<string>, line: string)
    requires EndsWith(history, kept)
    ensures EndsWith(history + [line], kept + [line])
  {
    assert (history + [line])[|history| - |kept|..] == history[|history| - |kept|..] + [line];
  }
}
