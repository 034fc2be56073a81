// Paste CR/LF stripping and the cursor word bounds of the host module.
module HostModule {
  import opened Common

  predicate IsCrlf(c: char) { c == '\n' || c == '\r' }

  /**
   * The text strip_crlf produces from `s` when the previous character was
   * (prev) or was not a CR/LF: other characters are kept; with a positive
   * setting the first CR/LF of a run becomes one space, otherwise CR/LF
   * characters are dropped.
   */
  function Strip(s: seq<char>, setting: int, prev: bool): seq<char>
  {
    if s == [] then []
    else if !IsCrlf(s[0]) then [s[0]] + Strip(s[1..], setting, false)
    else if setting > 0 && !prev then [' '] + Strip(s[1..], setting, true)
    else Strip(s[1..], setting, prev)
  }

  /** Whether the last character of `s` was a CR/LF, starting from prev. */
  function EndsInCrlf(s: seq<char>, prev: bool): bool
  {
    if s == [] then prev else IsCrlf(s[|s| - 1])
  }

  /** The characters of `s` that are not CR/LF, in order. */
  function NonCrlf(s: seq<char>): seq<char>
  {
    if s == [] then []
    else (if IsCrlf(s[0]) then [] else [s[0]]) + NonCrlf(s[1..])
  }

  /** What strip_crlf writes for the character c, and the run flag after it. */
  function StripHead(c: char, setting: int, prev: bool): seq<char>
  {
    if !IsCrlf(c) then [c] else if setting > 0 && !prev then [' '] else []
  }

  function StripNext(c: char, setting: int, prev: bool): bool
  {
    if !IsCrlf(c) then false else if setting > 0 && !prev then true else prev
  }

  lemma StripUnfold(s: seq<char>, setting: int, prev: bool)
    requires s != []
    ensures Strip(s, setting, prev) == StripHead(s[0], setting, prev) + Strip(s[1..], setting, StripNext(s[0], setting, prev))
  {
  }

  /** Stripping a concatenation strips each part, threading the run flag. */
  lemma {:induction false} StripAppend(a: seq<char>, b: seq<char>, setting: int, prev: bool)
    ensures Strip(a + b, setting, prev) == Strip(a, setting, prev) + Strip(b, setting, EndsInCrlf(a, prev))
  {
    if a == [] {
      assert a + b == b;
    } else {
      var ab := a + b;
      assert ab[0] == a[0] && ab[1..] == a[1..] + b;
      var next := StripNext(a[0], setting, prev);
      StripUnfold(ab, setting, prev);
      StripUnfold(a, setting, prev);
      StripAppend(a[1..], b, setting, next);
      if |a| > 1 {
        assert a[1..][|a[1..]| - 1] == a[|a| - 1];
      } else if setting <= 0 {
        StripDeletes(b, setting, next);
        StripDeletes(b, setting, EndsInCrlf(a, prev));
      }
    }
  }

  /** The run flag strip_crlf holds after the text t. */
  function Flag(t: seq<char>, setting: int): bool { setting > 0 && EndsInCrlf(t, false) }

  /** One more character extends the output by what that character alone gives. */
  lemma StripSnoc(t: seq<char>, c: char, setting: int)
    ensures Strip(t + [c], setting, false) == Strip(t, setting, false) + Strip([c], setting, Flag(t, setting))
  {
    StripAppend(t, [c], setting, false);
  }

  /** The output is never longer than the input. */
  lemma {:induction false} StripShorter(s: seq<char>, setting: int, prev: bool)
    ensures |Strip(s, setting, prev)| <= |s|
  {
    if s != [] { StripShorter(s[1..], setting, false); StripShorter(s[1..], setting, true); StripShorter(s[1..], setting, prev); }
  }

  /** No CR or LF survives. */
  lemma {:induction false} StripHasNoCrlf(s: seq<char>, setting: int, prev: bool)
    ensures forall i :: 0 <= i < |Strip(s, setting, prev)| ==> !IsCrlf(Strip(s, setting, prev)[i])
  {
    if s != [] { StripHasNoCrlf(s[1..], setting, false); StripHasNoCrlf(s[1..], setting, true); StripHasNoCrlf(s[1..], setting, prev); }
  }

  /** With a setting of 0 or less, CR/LF characters are simply deleted. */
  lemma {:induction false} StripDeletes(s: seq<char>, setting: int, prev: bool)
    requires setting <= 0
    ensures Strip(s, setting, prev) == NonCrlf(s)
  {
    if s != [] { StripDeletes(s[1..], setting, false); StripDeletes(s[1..], setting, prev); }
  }

  /** A string without CR/LF comes out unchanged. */
  lemma {:induction false} StripPlain(s: seq<char>, setting: int, prev: bool)
    requires forall i :: 0 <= i < |s| ==> !IsCrlf(s[i])
    ensures Strip(s, setting, prev) == s
  {
    if s != [] { StripPlain(s[1..], setting, false); }
  }

  /** A non-empty run of CR/LF alone becomes one space when the setting is positive. */
  lemma {:induction false} StripRun(run: seq<char>, setting: int)
    requires setting > 0 && run != []
    requires forall i :: 0 <= i < |run| ==> IsCrlf(run[i])
    ensures Strip(run, setting, false) == [' ']
  {
    StripRunAfter(run[1..], setting);
  }

  lemma {:induction false} StripRunAfter(run: seq<char>, setting: int)
    requires forall i :: 0 <= i < |run| ==> IsCrlf(run[i])
    ensures Strip(run, setting, true) == []
  {
    if run != [] { StripRunAfter(run[1..], setting); }
  }

  /**
   * With a positive setting, a run of CR/LF between two CR/LF-free pieces
   * is replaced by exactly one space.
   */
  lemma StripReplacesRun(a: seq<char>, run: seq<char>, b: seq<char>, setting: int)
    requires setting > 0 && run != []
    requires forall i :: 0 <= i < |a| ==> !IsCrlf(a[i])
    requires forall i :: 0 <= i < |b| ==> !IsCrlf(b[i])
    requires forall i :: 0 <= i < |run| ==> IsCrlf(run[i])
    ensures Strip(a + run + b, setting, false) == a + [' '] + b
  {
    StripAppend(a + run, b, setting, false);
    StripAppend(a, run, setting, false);
    StripPlain(a, setting, false);
    StripRun(run, setting);
    StripPlain(b, setting, true);
    assert EndsInCrlf(a, false) == false;
    assert (a + run)[|a + run| - 1] == run[|run| - 1];
  }

  /**
   * strip_crlf: rewrites the NUL-terminated text in `line` in place.  The
   * positions after the new terminator keep their old contents.
   */
  method StripCrlf(line: array<char>, setting: int)
    requires '\0' in line[..]
    modifies line
    ensures '\0' in line[..]
    ensures CStr(line[..]) == Strip(CStr(old(line[..])), setting, false)
    ensures forall i :: |CStr(line[..])| < i < line.Length ==> line[i] == old(line[i])
  {
    ghost var text := CStr(line[..]);
    var prev := false;
    var write := 0;
    var read := 0;
    while line[read] != '\0'
      invariant 0 <= write <= read <= |text|
      invariant forall i :: write <= i < line.Length ==> line[i] == old(line[i])
      invariant line[..write] == Strip(text[..read], setting, false)
      invariant prev == Flag(text[..read], setting)
      decreases |text| - read
    {
      var c := line[read];
      assert text[..read + 1] == text[..read] + [c];
      StripSnoc(text[..read], c, setting);
      if !IsCrlf(c) {
        prev := false;
        line[write] := c;
        write := write + 1;
      } else if setting > 0 && !prev {
        prev := true;
        line[write] := ' ';
        write := write + 1;
      }
      read := read + 1;
    }
    assert text[..read] == text;
    line[write] := '\0';
    StripIsCString(text, setting, false);
    CStrOfTerminated(line[..], write);
  }

  lemma {:induction false} StripIsCString(s: seq<char>, setting: int, prev: bool)
    requires IsCString(s)
    ensures IsCString(Strip(s, setting, prev))
  {
    if s != [] {
      assert IsCString(s[1..]) by { assert forall c :: c in s[1..] ==> c in s; }
      StripIsCString(s[1..], setting, false);
      StripIsCString(s[1..], setting, true);
      StripIsCString(s[1..], setting, prev);
    }
  }

  /** Number of double quotes in `s`. */
  function QuoteCount(s: seq<char>): nat { multiset(s)['"'] }

  /** The word delimiter at a cursor: '"' after an odd number of quotes, else ' '. */
  function Delimiter(s: seq<char>, cursor: nat): char
    requires cursor <= |s|
  {
    if QuoteCount(s[..cursor]) % 2 == 1 then '"' else ' '
  }

  /**
   * get_word_bounds: the word around the cursor runs from just after the
   * last delimiter before the cursor (or the start) to the first delimiter
   * at or after it (or the end).
   */
  method GetWordBounds(s: seq<char>, cursor: nat) returns (left: nat, right: nat)
    requires IsCString(s) && cursor <= |s|
    ensures 0 <= left <= cursor <= right <= |s|
    ensures left > 0 ==> s[left - 1] == Delimiter(s, cursor)
    ensures forall i :: left <= i < cursor ==> s[i] != Delimiter(s, cursor)
    ensures forall i :: cursor <= i < right ==> s[i] != Delimiter(s, cursor)
    ensures right < |s| ==> s[right] == Delimiter(s, cursor)
  {
    var count := 0;
    var i := 0;
    while i < cursor
      invariant 0 <= i <= cursor
      invariant count == QuoteCount(s[..i])
    {
      assert s[..i + 1] == s[..i] + [s[i]];
      if s[i] == '"' {
        count := count + 1;
      }
      i := i + 1;
    }
    assert s[..cursor] == s[..i];
    var delim := if count % 2 == 1 then '"' else ' ';
    left := 0;
    var j := cursor;
    while j > 0
      invariant 0 <= j <= cursor
      invariant forall k :: j <= k < cursor ==> s[k] != delim
    {
      if s[j - 1] == delim {
        left := j;
        break;
      }
      j := j - 1;
    }
    right := cursor;
    while right < |s| && s[right] != delim
      invariant cursor <= right <= |s|
      invariant forall k :: cursor <= k < right ==> s[k] != delim
    {
      right := right + 1;
    }
  }
}
