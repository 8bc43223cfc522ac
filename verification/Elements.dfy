/**
 * Finding the main element of a page: the first `<article>` or `<main>`, up to the
 * closing tag that matches it. Lower-casing a page must not move anything in it.
 */
module Elements {
  import opened Results
  import opened Text

  /** `lower` is `html` in lower case, every character in its place; letters outside ASCII may become anything. */
  predicate LowersInPlace(html: string, lower: string) {
    |lower| == |html| && forall i :: 0 <= i < |html| && html[i] as int < 128 ==> lower[i] == LowerChar(html[i])
  }

  predicate IsTagName(tag: string) { |tag| > 0 && forall i :: 0 <= i < |tag| ==> 'a' <= tag[i] <= 'z' }

  function OpenTag(tag: string): string { "<" + tag }

  function CloseTag(tag: string): string { "</" + tag + ">" }

  /** `i` is the first position from `from` on where the pattern occurs. */
  predicate IsFirst(s: string, pattern: string, from: nat, i: nat) {
    from <= i && Matches(s, i, pattern) && forall j :: from <= j < i ==> !Matches(s, j, pattern)
  }

  /** `str::find` from a position on. */
  method Find(s: string, pattern: string, from: nat) returns (r: Option<nat>)
    requires from <= |s|
    ensures r.Some? ==> IsFirst(s, pattern, from, r.value)
    ensures r.None? ==> forall j :: from <= j ==> !Matches(s, j, pattern)
  {
    var i := from;
    while i + |pattern| <= |s|
      invariant from <= i
      invariant forall j :: from <= j < i ==> !Matches(s, j, pattern)
    {
      if Matches(s, i, pattern) {
        return Some(i);
      }
      i := i + 1;
    }
    return None;
  }

  // ----- the reference: a depth counter that looks at every position -----

  /** Openings minus closings of `tag` that start at a position in `[from, i)`. */
  function Balance(lower: string, tag: string, from: nat, i: nat): int {
    if i <= from then 0
    else
      Balance(lower, tag, from, i - 1)
      + (if Matches(lower, i - 1, OpenTag(tag)) then 1 else 0)
      - (if Matches(lower, i - 1, CloseTag(tag)) then 1 else 0)
  }

  /**
   * A closing tag starts at `c`, as many were opened as closed before it, and at every earlier closing tag more were
   * open.
   */
  predicate IsMatchingClose(lower: string, tag: string, from: nat, c: nat) {
    && from <= c && Matches(lower, c, CloseTag(tag))
    && Balance(lower, tag, from, c) == 0
    && forall i :: from <= i < c && Matches(lower, i, CloseTag(tag)) ==> Balance(lower, tag, from, i) > 0
  }

  lemma {:induction false} BalanceOverGap(lower: string, tag: string, from: nat, a: nat, b: nat)
    requires from <= a <= b
    requires forall i :: a <= i < b ==> !Matches(lower, i, OpenTag(tag)) && !Matches(lower, i, CloseTag(tag))
    ensures Balance(lower, tag, from, b) == Balance(lower, tag, from, a)
    decreases b
  {
    if a < b {
      BalanceOverGap(lower, tag, from, a, b - 1);
    }
  }

  /** A tag contains `<` only at its start, so no other tag starts inside it. */
  lemma NoTagInside(lower: string, tag: string, at: nat, width: nat)
    requires IsTagName(tag)
    requires (width == |OpenTag(tag)| && Matches(lower, at, OpenTag(tag))) ||
            (width == |CloseTag(tag)| && Matches(lower, at, CloseTag(tag)))
    ensures forall i :: at < i < at + width ==> !Matches(lower, i, OpenTag(tag)) && !Matches(lower, i, CloseTag(tag))
  {
    var text := lower[at..at + width];
    forall i | at < i < at + width ensures !Matches(lower, i, OpenTag(tag)) && !Matches(lower, i, CloseTag(tag)) {
      assert lower[i] == text[i - at] != '<';
      StartsWithAngle(lower, tag, i);
    }
  }

  lemma StartsWithAngle(lower: string, tag: string, i: nat)
    requires IsTagName(tag)
    ensures Matches(lower, i, OpenTag(tag)) ==> i < |lower| && lower[i] == '<' && !Matches(lower, i, CloseTag(tag))
    ensures Matches(lower, i, CloseTag(tag)) ==> i < |lower| && lower[i] == '<' && !Matches(lower, i, OpenTag(tag))
  {
    if Matches(lower, i, OpenTag(tag)) {
      assert lower[i..i + |OpenTag(tag)|][0] == lower[i] && lower[i..i + |OpenTag(tag)|][1] == lower[i + 1];
    }
    if Matches(lower, i, CloseTag(tag)) {
      assert lower[i..i + |CloseTag(tag)|][0] == lower[i] && lower[i..i + |CloseTag(tag)|][1] == lower[i + 1];
    }
  }

  /** Reading one whole tag moves the balance by one. */
  lemma BalanceOverTag(lower: string, tag: string, from: nat, a: nat, at: nat, width: nat, opening: bool)
    requires IsTagName(tag) && from <= a <= at
    requires forall i :: a <= i < at ==> !Matches(lower, i, OpenTag(tag)) && !Matches(lower, i, CloseTag(tag))
    requires width == |if opening then OpenTag(tag) else CloseTag(tag)|
    requires Matches(lower, at, if opening then OpenTag(tag) else CloseTag(tag))
    ensures Balance(lower, tag, from, at) == Balance(lower, tag, from, a)
    ensures Balance(lower, tag, from, at + width) == Balance(lower, tag, from, a) + if opening then 1 else -1
  {
    hide Matches, OpenTag, CloseTag, IsTagName, Balance;
    BalanceOverGap(lower, tag, from, a, at);
    StartsWithAngle(lower, tag, at);
    TagsFit(lower, tag, at);
    BalanceStep(lower, tag, from, at);
    NoTagInside(lower, tag, at, width);
    BalanceOverGap(lower, tag, from, at + 1, at + width);
  }

  lemma BalanceStep(lower: string, tag: string, from: nat, i: nat)
    requires from <= i
    ensures Balance(lower, tag, from, i + 1) ==
            Balance(lower, tag, from, i)
            + (if Matches(lower, i, OpenTag(tag)) then 1 else 0)
            - (if Matches(lower, i, CloseTag(tag)) then 1 else 0)
  {
  }

  // ----- the code -----

  /** The scan of `first_element` from the end of the opening tag: the position of the matching closing tag. */
  method MatchingClose(lower: string, tag: string, afterOpen: nat) returns (r: Option<nat>)
    requires IsTagName(tag) && afterOpen <= |lower|
    ensures r.Some? ==> IsMatchingClose(lower, tag, afterOpen, r.value)
    ensures r.None? ==> forall c: nat :: !IsMatchingClose(lower, tag, afterOpen, c)
  {
    hide Balance, Matches, OpenTag, CloseTag, IsTagName;
    var open, close := "<" + tag, "</" + tag + ">";
    TagTexts(tag);
    var depth: nat := 1;
    var cursor := afterOpen;
    BalanceStarts(lower, tag, afterOpen);
    while depth > 0
      invariant afterOpen <= cursor <= |lower|
      invariant depth >= 1 && depth == 1 + Balance(lower, tag, afterOpen, cursor)
      invariant forall i :: afterOpen <= i < cursor && Matches(lower, i, close) ==>
              Balance(lower, tag, afterOpen, i) > 0
      decreases |lower| - cursor
    {
      var nextOpen := Find(lower, open, cursor);
      var nextClose := Find(lower, close, cursor);
      if nextOpen.Some? && nextClose.Some? && nextOpen.value < nextClose.value {
        var o := nextOpen.value;
        depth := depth + 1;
        BalanceOverTag(lower, tag, afterOpen, cursor, o, |open|, true);
        TagsFit(lower, tag, o);
        cursor := o + |open|;
      } else if nextClose.Some? {
        var c := nextClose.value;
        depth := depth - 1;
        BalanceOverTag(lower, tag, afterOpen, cursor, c, |close|, false);
        if depth == 0 {
          return Some(c);
        }
        TagsFit(lower, tag, c);
        cursor := c + |close|;
      } else {
        return None;
      }
    }
  }

  lemma TagTexts(tag: string)
    ensures OpenTag(tag) == "<" + tag && CloseTag(tag) == "</" + tag + ">"
  {
  }

  lemma BalanceStarts(lower: string, tag: string, from: nat)
    ensures Balance(lower, tag, from, from) == 0
  {
  }

  lemma TagsFit(lower: string, tag: string, i: nat)
    requires IsTagName(tag)
    ensures Matches(lower, i, OpenTag(tag)) ==>
              && i + |OpenTag(tag)| <= |lower| && |OpenTag(tag)| > 0
              && forall j :: i <= j < i + |OpenTag(tag)| ==> !Matches(lower, j, CloseTag(tag))
    ensures Matches(lower, i, CloseTag(tag)) ==>
              && i + |CloseTag(tag)| <= |lower| && |CloseTag(tag)| > 0
              && forall j :: i < j < i + |CloseTag(tag)| ==> !Matches(lower, j, CloseTag(tag))
  {
    StartsWithAngle(lower, tag, i);
    if Matches(lower, i, OpenTag(tag)) {
      NoTagInside(lower, tag, i, |OpenTag(tag)|);
    }
    if Matches(lower, i, CloseTag(tag)) {
      NoTagInside(lower, tag, i, |CloseTag(tag)|);
    }
  }

  /** Where the content of the first `tag` element starts: after the `>` that ends its opening tag. */
  ghost predicate IsContentStart(html: string, lower: string, tag: string, afterOpen: nat) {
    exists start: nat, gt: nat ::
      && IsFirst(lower, OpenTag(tag), 0, start)
      && IsFirst(html, ">", start, gt)
      && afterOpen == gt + 1
  }

  /** The content of the first `tag` element, before trimming. */
  ghost predicate IsContent(html: string, lower: string, tag: string, afterOpen: nat, c: nat) {
    IsContentStart(html, lower, tag, afterOpen) && IsMatchingClose(lower, tag, afterOpen, c)
  }

  /** `first_element`; `lower` is the page in lower case. */
  method FirstElement(html: string, lower: string, tag: string)
    returns (r: Option<string>, ghost afterOpen: nat, ghost c: nat)
    requires LowersInPlace(html, lower) && IsTagName(tag)
    ensures r.Some? ==> IsContent(html, lower, tag, afterOpen, c) && c <= |html| && r.value == Trim(html[afterOpen..c])
    ensures r.None? ==> forall a: nat, k: nat :: !IsContent(html, lower, tag, a, k)
  {
    hide Matches, OpenTag, Balance, IsMatchingClose, Trim;
    var open := "<" + tag;
    TagTexts(tag);
    afterOpen, c := 0, 0;
    var start := Find(lower, open, 0);
    if start.None? {
      return None, 0, 0;
    }
    MatchFits(lower, open, start.value);
    var gt := Find(html, ">", start.value);
    if gt.None? {
      FirstIsUniqueEverywhere(lower, OpenTag(tag), 0, start.value);
      return None, 0, 0;
    }
    MatchFits(html, ">", gt.value);
    var from := gt.value + 1;
    afterOpen := from;
    FirstIsUniqueEverywhere(lower, OpenTag(tag), 0, start.value);
    FirstIsUniqueEverywhere(html, ">", start.value, gt.value);
    var close := MatchingClose(lower, tag, from);
    if close.None? {
      return None, 0, 0;
    }
    c := close.value;
    MatchingCloseFits(lower, tag, afterOpen, c);
    r := Some(Trim(html[from..close.value]));
  }

  lemma MatchFits(s: string, pattern: string, i: nat)
    requires Matches(s, i, pattern)
    ensures i + |pattern| <= |s|
  {
  }

  lemma MatchingCloseFits(lower: string, tag: string, from: nat, c: nat)
    requires IsMatchingClose(lower, tag, from, c)
    ensures from <= c <= |lower|
  {
  }

  lemma FirstIsUniqueEverywhere(s: string, pattern: string, from: nat, i: nat)
    requires IsFirst(s, pattern, from, i)
    ensures forall j: nat :: IsFirst(s, pattern, from, j) ==> j == i
  {
    hide Matches;
  }

  /** `extract_main_content`: an article if there is one, else a main element, else the caller uses the page. */
  method ExtractMainContent(html: string, lower: string) returns (r: Option<string>)
    requires LowersInPlace(html, lower)
    ensures r.None? <==> forall tag, a: nat, c: nat ::
              tag == "article" || tag == "main" ==> !IsContent(html, lower, tag, a, c)
    ensures r.Some? ==> exists tag, a: nat, c: nat ::
              && (tag == "article" || tag == "main")
              && (tag == "main" ==> forall a: nat, c: nat :: !IsContent(html, lower, "article", a, c))
              && IsContent(html, lower, tag, a, c) && a <= c <= |html| && r == Some(Trim(html[a..c]))
  {
    hide IsContent, Trim;
    var slice, a, c := FirstElement(html, lower, "article");
    if slice.Some? {
      ContentFits(html, lower, "article", a, c);
      return slice;
    }
    slice, a, c := FirstElement(html, lower, "main");
    if slice.Some? {
      ContentFits(html, lower, "main", a, c);
    }
    return slice;
  }

  lemma ContentFits(html: string, lower: string, tag: string, a: nat, c: nat)
    requires |lower| == |html| && IsContent(html, lower, tag, a, c)
    ensures a <= c <= |html|
  {
    MatchingCloseFits(lower, tag, a, c);
  }

  // ----- what the matching close means -----

  /** Inside the element no prefix closes more than it opens. */
  lemma {:induction false} NeverOverclosed(lower: string, tag: string, from: nat, c: nat, i: nat)
    requires IsTagName(tag) && IsMatchingClose(lower, tag, from, c) && from <= i <= c
    ensures Balance(lower, tag, from, i) >= 0
    decreases i
  {
    if from < i {
      NeverOverclosed(lower, tag, from, c, i - 1);
      StartsWithAngle(lower, tag, i - 1);
    }
  }

  /**
   * The content is nested properly: as many openings as closings, and no prefix with more closings; and there is only
   * one such end.
   */
  lemma ContentIsBalanced(lower: string, tag: string, from: nat, c: nat)
    requires IsTagName(tag) && IsMatchingClose(lower, tag, from, c)
    ensures Balance(lower, tag, from, c) == 0
    ensures forall i :: from <= i <= c ==> Balance(lower, tag, from, i) >= 0
    ensures Balance(lower, tag, from, c + 1) == -1
    ensures forall c': nat :: IsMatchingClose(lower, tag, from, c') ==> c' == c
  {
    forall i | from <= i <= c ensures Balance(lower, tag, from, i) >= 0 {
      NeverOverclosed(lower, tag, from, c, i);
    }
    StartsWithAngle(lower, tag, c);
    BalanceStep(lower, tag, from, c);
  }

  ghost predicate DepthStaysOpen(lower: string, tag: string, from: nat, c: nat) {
    forall i: nat :: from <= i <= c ==> 1 + Balance(lower, tag, from, i) > 0
  }

  /** The matching close is where the depth counter, looking at every position, first comes back to zero. */
  lemma MatchingCloseIffDepthZero(lower: string, tag: string, from: nat, c: nat)
    requires IsTagName(tag) && from <= c
    ensures IsMatchingClose(lower, tag, from, c) <==>
            1 + Balance(lower, tag, from, c + 1) == 0 && DepthStaysOpen(lower, tag, from, c)
  {
    hide Balance, Matches, OpenTag, CloseTag;
    if IsMatchingClose(lower, tag, from, c) {
      ContentIsBalanced(lower, tag, from, c);
    }
    if 1 + Balance(lower, tag, from, c + 1) == 0 && DepthStaysOpen(lower, tag, from, c) {
      BalanceStep(lower, tag, from, c);
      assert 1 + Balance(lower, tag, from, c) > 0;
      forall i: nat | from <= i < c && Matches(lower, i, CloseTag(tag)) ensures Balance(lower, tag, from, i) > 0 {
        BalanceStep(lower, tag, from, i);
        StartsWithAngle(lower, tag, i);
        assert 1 + Balance(lower, tag, from, i + 1) > 0;
      }
      assert Matches(lower, c, CloseTag(tag));
      StartsWithAngle(lower, tag, c);
      assert IsMatchingClose(lower, tag, from, c);
    }
  }
}
