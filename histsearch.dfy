// The history search of readline's histsearch.c: a linear scan of the
// history list from history_offset, forwards or backwards, that looks in
// each entry for a string (anywhere, or only at the start of the line) or
// for an fnmatch pattern, and on success moves history_offset to the entry.
//
// History lines and search strings are the text of their C strings, without
// the terminating NUL. fnmatch(3) comes from the C library and is a
// parameter of the model; case-folded and multibyte comparison is not
// modelled.

module HistSearch {
  import opened Common

  /** fnmatch(pattern, text, 0) == 0, as the C library decides it. */
  type Matcher = (string, string) -> bool

  /** A matcher for searches that never consult fnmatch. */
  const NoMatcher: Matcher := (pattern: string, text: string) => false

  /** The flag bits history_search_internal reads: ANCHORED_SEARCH, and
      PATTERN_SEARCH in a build where fnmatch is available. */
  datatype Flags = Flags(anchored: bool, patsearch: bool)

  const Plain := Flags(false, false)
  const Anchored := Flags(true, false)

  // ---------------------------------------------------------------------
  // One history line.

  /** The test made at one start position of a line: fnmatch on the rest
      of the line, or STREQN(s, line + k, |s|). */
  predicate FoundAt(line: string, s: string, k: int, patsearch: bool, fnmatch: Matcher)
  {
    if patsearch then 0 <= k <= |line| && fnmatch(s, line[k..]) else OccursAt(line, s, k)
  }

  /** How many characters from the end of the line a reverse search starts:
      the whole string, or one character for a pattern. */
  function Need(s: string, patsearch: bool): nat
  {
    if patsearch then 1 else |s|
  }

  /** One past the last start position a forward search tries: the same
      last position as the reverse search. */
  function ForwardLimit(line: string, s: string, patsearch: bool): int
  {
    |line| - Need(s, patsearch) + 1
  }

  /** The forward limit as histsearch.c computes it, from the length of the
      string even when the string is a pattern. */
  function ForwardLimitAsWritten(line: string, s: string): int
  {
    |line| - |s| + 1
  }

  /** The first start position in [k, limit) at which the test succeeds. */
  function ScanUp(line: string, s: string, k: nat, limit: int, patsearch: bool, fnmatch: Matcher): (r: Option<nat>)
    decreases limit - k
  {
    if k >= limit then None
    else if FoundAt(line, s, k, patsearch, fnmatch) then Some(k)
    else ScanUp(line, s, k + 1, limit, patsearch, fnmatch)
  }

  /** The last start position in [0, k] at which the test succeeds. */
  function ScanDown(line: string, s: string, k: int, patsearch: bool, fnmatch: Matcher): (r: Option<nat>)
    decreases k + 1
  {
    if k < 0 then None
    else if FoundAt(line, s, k, patsearch, fnmatch) then Some(k)
    else ScanDown(line, s, k - 1, patsearch, fnmatch)
  }

  /** Where the search finds s in one line, for a given forward limit. */
  function LineHitWith(line: string, s: string, reverse: bool, flags: Flags, fnmatch: Matcher, limit: int): (r: Option<nat>)
  {
    if !flags.patsearch && |s| > |line| then None
    else if flags.anchored then
      (if FoundAt(line, s, 0, flags.patsearch, fnmatch) then Some(0) else None)
    else if reverse then ScanDown(line, s, |line| - Need(s, flags.patsearch), flags.patsearch, fnmatch)
    else ScanUp(line, s, 0, limit, flags.patsearch, fnmatch)
  }

  /** Where the search finds s in one line. */
  function LineHit(line: string, s: string, reverse: bool, flags: Flags, fnmatch: Matcher): (r: Option<nat>)
  {
    LineHitWith(line, s, reverse, flags, fnmatch, ForwardLimit(line, s, flags.patsearch))
  }

  /** Where histsearch.c as written finds s in one line. */
  function LineHitAsWritten(line: string, s: string, reverse: bool, flags: Flags, fnmatch: Matcher): (r: Option<nat>)
  {
    LineHitWith(line, s, reverse, flags, fnmatch, ForwardLimitAsWritten(line, s))
  }

  /** The C convention: an index, or -1 for none. */
  function IndexOr(o: Option<nat>): int
  {
    if o.Some? then o.value else -1
  }

  /** The scan of one line inside history_search_internal. */
  method FindInLine(line: string, s: string, reverse: bool, flags: Flags, fnmatch: Matcher) returns (k: int)
    ensures k == IndexOr(LineHit(line, s, reverse, flags, fnmatch))
  {
    if !flags.patsearch && |s| > |line| {
      return -1;
    }
    if flags.anchored {
      k := if FoundAt(line, s, 0, flags.patsearch, fnmatch) then 0 else -1;
      return;
    }
    var ll := if flags.patsearch then 1 else |s|;
    if reverse {
      var idx := |line| - ll;
      ghost var start := idx;
      while idx >= 0
        invariant -1 <= idx <= start
        invariant ScanDown(line, s, idx, flags.patsearch, fnmatch) == ScanDown(line, s, start, flags.patsearch, fnmatch)
        decreases idx + 1
      {
        if FoundAt(line, s, idx, flags.patsearch, fnmatch) {
          return idx;
        }
        idx := idx - 1;
      }
      return -1;
    } else {
      var limit := |line| - ll + 1;
      var idx := 0;
      while idx < limit
        invariant 0 <= idx
        invariant ScanUp(line, s, idx, limit, flags.patsearch, fnmatch) == ScanUp(line, s, 0, limit, flags.patsearch, fnmatch)
        decreases limit - idx
      {
        if FoundAt(line, s, idx, flags.patsearch, fnmatch) {
          return idx;
        }
        idx := idx + 1;
      }
      return -1;
    }
  }

  // ---------------------------------------------------------------------
  // What the line scans find.

  lemma {:induction false} ScanUpFirst(line: string, s: string, k: nat, limit: int, p: bool, f: Matcher, j: nat)
    ensures ScanUp(line, s, k, limit, p, f) == Some(j) <==>
              k <= j < limit && FoundAt(line, s, j, p, f) &&
              forall m :: k <= m < j ==> !FoundAt(line, s, m, p, f)
    decreases limit - k
  {
    if k < limit && !FoundAt(line, s, k, p, f) {
      ScanUpFirst(line, s, k + 1, limit, p, f, j);
    }
  }

  lemma {:induction false} ScanUpNone(line: string, s: string, k: nat, limit: int, p: bool, f: Matcher)
    ensures ScanUp(line, s, k, limit, p, f) == None <==>
              forall m :: k <= m < limit ==> !FoundAt(line, s, m, p, f)
    decreases limit - k
  {
    if k < limit && !FoundAt(line, s, k, p, f) {
      ScanUpNone(line, s, k + 1, limit, p, f);
    }
  }

  lemma {:induction false} ScanDownLast(line: string, s: string, k: int, p: bool, f: Matcher, j: nat)
    ensures ScanDown(line, s, k, p, f) == Some(j) <==>
              j <= k && FoundAt(line, s, j, p, f) &&
              forall m :: j < m <= k ==> !FoundAt(line, s, m, p, f)
    decreases k + 1
  {
    if 0 <= k && !FoundAt(line, s, k, p, f) {
      ScanDownLast(line, s, k - 1, p, f, j);
    }
  }

  lemma {:induction false} ScanDownNone(line: string, s: string, k: int, p: bool, f: Matcher)
    ensures ScanDown(line, s, k, p, f) == None <==>
              forall m :: 0 <= m <= k ==> !FoundAt(line, s, m, p, f)
    decreases k + 1
  {
    if 0 <= k && !FoundAt(line, s, k, p, f) {
      ScanDownNone(line, s, k - 1, p, f);
    }
  }

  /** An anchored string search finds a line exactly when it starts with the
      string, and then reports position 0. */
  lemma AnchoredMatchesAtStart(line: string, s: string, reverse: bool, f: Matcher)
    ensures LineHit(line, s, reverse, Anchored, f) == (if s <= line then Some(0) else None)
  {
    if |s| <= |line| {
      assert OccursAt(line, s, 0) <==> s <= line;
    }
  }

  /** A forward string search reports the leftmost occurrence of the string
      in the line, and fails exactly when there is none. */
  lemma ForwardFindsLeftmost(line: string, s: string, f: Matcher, j: nat)
    ensures LineHit(line, s, false, Plain, f) == Some(j) <==>
              OccursAt(line, s, j) && forall m :: 0 <= m < j ==> !OccursAt(line, s, m)
    ensures LineHit(line, s, false, Plain, f) == None <==> forall m :: !OccursAt(line, s, m)
  {
    if |s| <= |line| {
      assert LineHit(line, s, false, Plain, f) == ScanUp(line, s, 0, |line| - |s| + 1, false, f);
      forall m ensures FoundAt(line, s, m, false, f) == OccursAt(line, s, m) { }
      ScanUpFirst(line, s, 0, |line| - |s| + 1, false, f, j);
      ScanUpNone(line, s, 0, |line| - |s| + 1, false, f);
    }
  }

  /** A reverse string search reports the rightmost occurrence of the
      string in the line, and fails exactly when there is none. */
  lemma ReverseFindsRightmost(line: string, s: string, f: Matcher, j: nat)
    ensures LineHit(line, s, true, Plain, f) == Some(j) <==>
              OccursAt(line, s, j) && forall m :: j < m ==> !OccursAt(line, s, m)
    ensures LineHit(line, s, true, Plain, f) == None <==> forall m :: !OccursAt(line, s, m)
  {
    if |s| <= |line| {
      assert LineHit(line, s, true, Plain, f) == ScanDown(line, s, |line| - |s|, false, f);
      forall m ensures FoundAt(line, s, m, false, f) == OccursAt(line, s, m) { }
      ScanDownLast(line, s, |line| - |s|, false, f, j);
      ScanDownNone(line, s, |line| - |s|, false, f);
    }
  }

  /** With the forward limit taken from the start positions the reverse scan
      tries, a line is found going forwards exactly when it is found going
      backwards, for strings and patterns alike. */
  lemma DirectionsAgree(line: string, s: string, flags: Flags, f: Matcher)
    ensures LineHit(line, s, false, flags, f).Some? <==> LineHit(line, s, true, flags, f).Some?
  {
    var last := |line| - Need(s, flags.patsearch);
    ScanUpNone(line, s, 0, last + 1, flags.patsearch, f);
    ScanDownNone(line, s, last, flags.patsearch, f);
  }

  /** For a string search the corrected forward limit is the one histsearch.c
      computes. */
  lemma PlainLimitAsWritten(line: string, s: string, reverse: bool, anchored: bool, f: Matcher)
    ensures LineHitAsWritten(line, s, reverse, Flags(anchored, false), f) == LineHit(line, s, reverse, Flags(anchored, false), f)
  {
  }

  /** Lowering the limit of a forward scan keeps a hit below the new limit
      and loses one at or above it. */
  lemma {:induction false} ScanUpCut(line: string, s: string, k: nat, lo: int, hi: int, patsearch: bool, f: Matcher)
    requires lo <= hi
    ensures var r := ScanUp(line, s, k, hi, patsearch, f);
      ScanUp(line, s, k, lo, patsearch, f) == if r.Some? && r.value < lo then r else None
    decreases hi - k
  {
    if k < hi && !FoundAt(line, s, k, patsearch, f) {
      ScanUpCut(line, s, k + 1, lo, hi, patsearch, f);
    }
  }

  /** histsearch.c as written finds what the corrected search finds, except
      a forward hit at or past its own, smaller, limit |line| - |s| + 1. */
  lemma AsWrittenIsCutHit(line: string, s: string, reverse: bool, flags: Flags, f: Matcher)
    requires flags.patsearch ==> s != []
    ensures var r := LineHit(line, s, reverse, flags, f);
      LineHitAsWritten(line, s, reverse, flags, f) ==
        if r.Some? && (reverse || flags.anchored || r.value < ForwardLimitAsWritten(line, s)) then r else None
  {
    if !reverse && !flags.anchored && (flags.patsearch || |s| <= |line|) {
      ScanUpCut(line, s, 0, ForwardLimitAsWritten(line, s), ForwardLimit(line, s, flags.patsearch), flags.patsearch, f);
    }
  }

  /** In a pattern search histsearch.c takes the forward limit from the
      length of the pattern, so a forward search for "a" (the pattern "*a*")
      misses the line "a" that the reverse search finds at position 0. */
  lemma ForwardPatternMissesShortLine(f: Matcher)
    requires f("*a*", "a")
    ensures PatternFor("a", false) == "*a*"
    ensures LineHitAsWritten("a", "*a*", false, Flags(false, true), f) == None
    ensures LineHitAsWritten("a", "*a*", true, Flags(false, true), f) == Some(0)
    ensures LineHit("a", "*a*", false, Flags(false, true), f) == Some(0)
  {
    assert "a"[0..] == "a";
    assert ScanDown("a", "*a*", 0, true, f) == Some(0);
    assert ScanUp("a", "*a*", 0, 1, true, f) == Some(0);
  }

  // ---------------------------------------------------------------------
  // The history list.

  /** Whether entry m is visited at or after entry i. */
  predicate Ahead(i: int, m: int, reverse: bool)
  {
    if reverse then m <= i else i <= m
  }

  /** The entry and position found by the scan of the list from entry i. */
  function Scan(lines: seq<string>, s: string, i: int, reverse: bool, flags: Flags, fnmatch: Matcher): (r: Option<(nat, nat)>)
    requires -1 <= i <= |lines|
    requires reverse ==> i < |lines|
    requires !reverse ==> 0 <= i
    decreases if reverse then i + 1 else |lines| - i
  {
    if (reverse && i < 0) || (!reverse && i == |lines|) then None
    else
      match LineHit(lines[i], s, reverse, flags, fnmatch)
      case Some(k) => Some((i, k))
      case None => Scan(lines, s, if reverse then i - 1 else i + 1, reverse, flags, fnmatch)
  }

  /** history_search_internal from history_offset `offset`. */
  function Search(lines: seq<string>, offset: nat, s: string, direction: int, flags: Flags, fnmatch: Matcher): (r: Option<(nat, nat)>)
    requires offset <= |lines|
  {
    if s == [] then None
    else if |lines| == 0 || (offset >= |lines| && direction >= 0) then None
    else Scan(lines, s, if direction < 0 && offset >= |lines| then |lines| - 1 else offset, direction < 0, flags, fnmatch)
  }

  /** An empty string, an empty history and a forward search from the end
      find nothing. */
  lemma SearchTrivial(lines: seq<string>, offset: nat, s: string, direction: int, flags: Flags, f: Matcher)
    requires offset <= |lines|
    requires s == [] || |lines| == 0 || (offset == |lines| && direction >= 0)
    ensures Search(lines, offset, s, direction, flags, f) == None
  {
  }

  /** The scan stops at the first entry, in its direction, that holds a hit. */
  lemma {:induction false} ScanFindsNearest(lines: seq<string>, s: string, i: int, reverse: bool, flags: Flags, f: Matcher, j: nat, k: nat)
    requires -1 <= i <= |lines|
    requires reverse ==> i < |lines|
    requires !reverse ==> 0 <= i
    requires Scan(lines, s, i, reverse, flags, f) == Some((j, k))
    ensures j < |lines| && Ahead(i, j, reverse)
    ensures LineHit(lines[j], s, reverse, flags, f) == Some(k)
    ensures forall m :: 0 <= m < |lines| && Ahead(i, m, reverse) && Ahead(m, j, reverse) && m != j ==>
              LineHit(lines[m], s, reverse, flags, f).None?
    decreases if reverse then i + 1 else |lines| - i
  {
    if LineHit(lines[i], s, reverse, flags, f).None? {
      ScanFindsNearest(lines, s, if reverse then i - 1 else i + 1, reverse, flags, f, j, k);
    }
  }

  /** The scan finds nothing exactly when no entry ahead holds a hit. */
  lemma {:induction false} ScanNone(lines: seq<string>, s: string, i: int, reverse: bool, flags: Flags, f: Matcher)
    requires -1 <= i <= |lines|
    requires reverse ==> i < |lines|
    requires !reverse ==> 0 <= i
    ensures Scan(lines, s, i, reverse, flags, f) == None <==>
              forall m :: 0 <= m < |lines| && Ahead(i, m, reverse) ==> LineHit(lines[m], s, reverse, flags, f).None?
    decreases if reverse then i + 1 else |lines| - i
  {
    if !((reverse && i < 0) || (!reverse && i == |lines|)) && LineHit(lines[i], s, reverse, flags, f).None? {
      ScanNone(lines, s, if reverse then i - 1 else i + 1, reverse, flags, f);
    }
  }

  /** The C result of a search and the history_offset it leaves. */
  predicate Landed(r: int, offset: int, oldOffset: int, result: Option<(nat, nat)>)
  {
    match result
    case None => r == -1 && offset == oldOffset
    case Some((j, k)) => r == k && offset == j
  }

  /** The history list and history_offset. */
  class History {
    var lines: seq<string>
    var offset: int

    ghost predicate Valid()
      reads this
    {
      0 <= offset <= |lines|
    }

    constructor(lines: seq<string>, offset: nat)
      requires offset <= |lines|
      ensures Valid() && this.lines == lines && this.offset == offset
    {
      this.lines := lines;
      this.offset := offset;
    }

    /** history_search_internal: on success history_offset names the entry
        found and the result is the position in its line; otherwise the
        result is -1 and nothing changes. */
    method SearchInternal(s: string, direction: int, flags: Flags, fnmatch: Matcher) returns (r: int)
      requires Valid()
      modifies this
      ensures Valid() && lines == old(lines)
      ensures Landed(r, offset, old(offset), Search(lines, old(offset), s, direction, flags, fnmatch))
    {
      var i := offset;
      var reverse := direction < 0;
      if s == [] {
        return -1;
      }
      if |lines| == 0 || (i >= |lines| && !reverse) {
        return -1;
      }
      if reverse && i >= |lines| {
        i := |lines| - 1;
      }
      ghost var start := i;
      while true
        invariant -1 <= start <= |lines| && (reverse ==> start < |lines|) && (!reverse ==> 0 <= start)
        invariant -1 <= i <= |lines| && (reverse ==> i < |lines|) && (!reverse ==> 0 <= i)
        invariant Scan(lines, s, i, reverse, flags, fnmatch) == Scan(lines, s, start, reverse, flags, fnmatch)
        invariant lines == old(lines) && offset == old(offset)
        decreases if reverse then i + 1 else |lines| - i
      {
        if (reverse && i < 0) || (!reverse && i == |lines|) {
          return -1;
        }
        var k := FindInLine(lines[i], s, reverse, flags, fnmatch);
        if k >= 0 {
          offset := i;
          return k;
        }
        i := if reverse then i - 1 else i + 1;
      }
    }

    /** history_search: a string search anywhere in the line. */
    method HistorySearch(s: string, direction: int) returns (r: int)
      requires Valid()
      modifies this
      ensures Valid() && lines == old(lines)
      ensures Landed(r, offset, old(offset), Search(lines, old(offset), s, direction, Plain, NoMatcher))
    {
      r := SearchInternal(s, direction, Plain, NoMatcher);
    }

    /** history_search_prefix: a string search at the start of the line. */
    method HistorySearchPrefix(s: string, direction: int) returns (r: int)
      requires Valid()
      modifies this
      ensures Valid() && lines == old(lines)
      ensures Landed(r, offset, old(offset), Search(lines, old(offset), s, direction, Anchored, NoMatcher))
    {
      r := SearchInternal(s, direction, Anchored, NoMatcher);
    }

    /** history_set_pos: moves history_offset when pos names an entry or the
        end of the list. */
    method SetPos(pos: int) returns (ok: bool)
      requires Valid()
      modifies this
      ensures Valid() && lines == old(lines)
      ensures ok <==> 0 <= pos <= |lines|
      ensures offset == if ok then pos else old(offset)
    {
      if pos > |lines| || pos < 0 {
        return false;
      }
      offset := pos;
      return true;
    }

    /** history_search_pos: the entry a string search from pos finds, or -1;
        history_offset is the same afterwards either way. */
    method HistorySearchPos(s: string, dir: int, pos: int) returns (r: int)
      requires Valid()
      modifies this
      ensures Valid() && lines == old(lines) && offset == old(offset)
      ensures var from := if 0 <= pos <= |lines| then pos else old(offset);
              var result := Search(lines, from, s, dir, Plain, NoMatcher);
              r == if result.Some? then result.value.0 else -1
    {
      var old_ := offset;
      var _ := SetPos(pos);
      var found := HistorySearch(s, dir);
      if found == -1 {
        var _ := SetPos(old_);
        return -1;
      }
      r := offset;
      var _ := SetPos(old_);
    }

    /** _hs_history_patsearch: with fnmatch, a pattern ending in an unescaped
        backslash is refused and any other is wrapped in `*` and searched
        for as a pattern; without fnmatch the string is searched for as it
        is. */
    method PatSearch(s: string, direction: int, anchored: bool, haveFnmatch: bool, fnmatch: Matcher) returns (r: int)
      requires Valid()
      requires s != []
      modifies this
      ensures Valid() && lines == old(lines)
      ensures haveFnmatch && TrailingBackslashes(s) % 2 == 1 ==> r == -1 && offset == old(offset)
      ensures haveFnmatch && TrailingBackslashes(s) % 2 == 0 ==>
                Landed(r, offset, old(offset), Search(lines, old(offset), PatternFor(s, anchored), direction, Flags(anchored, true), fnmatch))
      ensures !haveFnmatch ==>
                Landed(r, offset, old(offset), Search(lines, old(offset), s, direction, Flags(anchored, false), fnmatch))
    {
      if haveFnmatch {
        var unescaped := EndsInUnescapedBackslash(s);
        if unescaped {
          return -1;
        }
        var pat := PatternFor(s, anchored);
        r := SearchInternal(pat, direction, Flags(anchored, true), fnmatch);
      } else {
        r := SearchInternal(s, direction, Flags(anchored, false), fnmatch);
      }
    }
  }

  // ---------------------------------------------------------------------
  // Patterns.

  /** The number of backslashes that end s. */
  function TrailingBackslashes(s: string): (n: nat)
    ensures n <= |s|
    ensures forall k :: |s| - n <= k < |s| ==> s[k] == '\\'
    ensures n < |s| ==> s[|s| - n - 1] != '\\'
  {
    if |s| == 0 || s[|s| - 1] != '\\' then 0 else 1 + TrailingBackslashes(s[..|s| - 1])
  }

  /** The backslash count of _hs_history_patsearch: whether the last
      backslash of s escapes nothing. */
  method EndsInUnescapedBackslash(s: string) returns (unescaped: bool)
    requires s != []
    ensures unescaped <==> TrailingBackslashes(s) % 2 == 1
  {
    var ret := |s| - 1;
    unescaped := s[ret] == '\\';
    if unescaped {
      while ret > 0 && s[ret - 1] == '\\'
        invariant 0 <= ret < |s|
        invariant forall k :: ret <= k < |s| ==> s[k] == '\\'
        invariant unescaped <==> (|s| - ret) % 2 == 1
      {
        ret := ret - 1;
        unescaped := !unescaped;
      }
      assert TrailingBackslashes(s) == |s| - ret;
    }
  }

  /** Where s starts in its pattern: after a leading `*` when the search is
      unanchored and s does not start with one. */
  function StarOffset(s: string, anchored: bool): nat
    requires s != []
  {
    if !anchored && s[0] != '*' then 1 else 0
  }

  /** The fnmatch pattern _hs_history_patsearch searches for: s, after a `*`
      at its offset, and followed by a `*` unless it ends with one. */
  function PatternFor(s: string, anchored: bool): (p: string)
    requires s != []
    ensures |p| == StarOffset(s, anchored) + |s| + (if s[|s| - 1] == '*' then 0 else 1)
    ensures p[StarOffset(s, anchored)..StarOffset(s, anchored) + |s|] == s
    ensures p[|p| - 1] == '*'
    ensures p[0] == '*' <==> !anchored || s[0] == '*'
  {
    (if StarOffset(s, anchored) == 1 then "*" else "") + s + (if s[|s| - 1] == '*' then "" else "*")
  }
}
