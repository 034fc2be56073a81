// wildmatch: glob matching of a NUL-terminated string against a pattern
// with '?', '*', "**", bracket sets and backslash escapes.  The pattern and
// the string are read through Ch, so the first NUL (or the end of the
// sequence) is the terminator, as in the C code.  Flags are a record of
// booleans rather than the bit values of the header.
module Wildmatch {
  import opened Common

  datatype Flags = Flags(casefold: bool, pathname: bool, period: bool, noescape: bool,
                         leadingDir: bool, wildstar: bool, slashfold: bool)

  /** WM_WILDSTAR implies WM_PATHNAME. */
  function Implied(f: Flags): (g: Flags)
    ensures g.pathname == (f.pathname || f.wildstar)
    ensures g == f.(pathname := g.pathname)
  {
    if f.wildstar then f.(pathname := true) else f
  }

  /** is_slash: '/' always, '\' too under WM_SLASHFOLD. */
  predicate IsSlash(c: char, f: Flags) { c == '/' || (f.slashfold && c == '\\') }

  /** A char compared as MSVC's signed char: bytes from 0x80 are negative. */
  function Signed(c: char): int { if c as int < 128 then c as int else c as int % 256 - 256 }

  /** The first slash at or after i, stopping at the terminator (find_slash). */
  function SlashFrom(s: seq<char>, i: nat, f: Flags): (r: Option<nat>)
    ensures r.Some? ==> i <= r.value < |s| && IsSlash(s[r.value], f)
    decreases |s| - i
  {
    if Ch(s, i) == '\0' then None
    else if IsSlash(s[i], f) then Some(i)
    else SlashFrom(s, i + 1, f)
  }

  /** A '.' that WM_PERIOD protects: at the string start, or after a slash under WM_PATHNAME. */
  predicate LeadingPeriod(s: seq<char>, si: nat, start: nat, f: Flags)
    requires start <= si
  {
    Ch(s, si) == '.' && f.period && (si == start || (f.pathname && IsSlash(Ch(s, si - 1), f)))
  }

  /** The comparison of the normal case: equal, equal after tolower under WM_CASEFOLD, or '/' against any slash. */
  predicate CharMatch(c: char, t: char, f: Flags)
  {
    c == t || (f.casefold && ToLower(c) == ToLower(t)) || (c == '/' && IsSlash(t, f))
  }

  // ---------------------------------------------------------------------
  // rangematch

  datatype RangeResult = RangeError | RangeNoMatch | RangeMatch(next: nat)

  /** How the scan of a bracket body ends: a missing terminator, a slash under WM_PATHNAME, or ']' after `next - 1`. */
  datatype Scan = Broken | SlashStop | Closed(ok: bool, next: nat)

  /** The character-class names, in the order the source tries them. */
  const ClassNames: seq<string> := ["alnum", "alpha", "blank", "cntrl", "digit", "graph",
                                    "lower", "print", "punct", "space", "xdigit", "upper"]

  /** strncmp(p + j, q, |q|) == 0 for a q holding no NUL. */
  predicate HasAt(p: seq<char>, j: nat, q: string)
  {
    j + |q| <= |p| && p[j..j + |q|] == q
  }

  /** The first class name whose "name:]" follows the ':' at j. */
  function ClassAt(p: seq<char>, j: nat, names: seq<string>): (r: Option<string>)
    ensures r.Some? ==> r.value in names && HasAt(p, j + 1, r.value + ":]")
  {
    if names == [] then None
    else if HasAt(p, j + 1, names[0] + ":]") then Some(names[0])
    else ClassAt(p, j, names[1..])
  }

  predicate IsUpper(c: char) { 'A' <= c <= 'Z' }
  predicate IsLower(c: char) { 'a' <= c <= 'z' }
  predicate IsGraph(c: char) { 33 <= c as int <= 126 }
  function ToUpper(c: char): char { if IsLower(c) then (c as int - 32) as char else c }

  /** The <ctype.h> class predicates in the C locale; bytes from 0x80 belong to none. */
  predicate InClass(name: string, t: char, f: Flags)
  {
    match name
    case "alnum" => IsAlpha(t) || IsDigit(t)
    case "alpha" => IsAlpha(t)
    case "blank" => t == ' ' || t == '\t'
    case "cntrl" => t as int < 32 || t as int == 127
    case "digit" => IsDigit(t)
    case "graph" => IsGraph(t)
    case "lower" => IsLower(t)
    case "print" => 32 <= t as int <= 126
    case "punct" => IsGraph(t) && !IsAlpha(t) && !IsDigit(t)
    case "space" => IsSpace(t)
    case "xdigit" => IsDigit(t) || ('a' <= t <= 'f') || ('A' <= t <= 'F')
    case "upper" => IsUpper(if f.casefold then ToUpper(t) else t)
    case _ => false
  }

  /** The test character as rangematch compares it: slashes become '/', otherwise tolower under WM_CASEFOLD. */
  function Fold(t: char, f: Flags): char
  {
    if IsSlash(t, f) then '/' else if f.casefold then ToLower(t) else t
  }

  /** A range end as rangematch compares it: tolower under WM_CASEFOLD. */
  function Lower(c: char, f: Flags): char { if f.casefold then ToLower(c) else c }

  /** The lower end of the range c-c2 after folding: a reversed range is swapped. */
  function SpanLo(c: char, c2: char, f: Flags): char
  {
    if Signed(Lower(c, f)) > Signed(Lower(c2, f)) then Lower(c2, f) else Lower(c, f)
  }

  /** The upper end of the range c-c2 after folding. */
  function SpanHi(c: char, c2: char, f: Flags): char
  {
    if Signed(Lower(c, f)) > Signed(Lower(c2, f)) then Lower(c, f) else Lower(c2, f)
  }

  /** t lies within the range c-c2, compared as signed chars. */
  predicate InSpan(c: char, c2: char, t: char, f: Flags)
  {
    Signed(SpanLo(c, c2, f)) <= Signed(t) <= Signed(SpanHi(c, c2, f))
  }

  /** rangematch on the bracket body at i (just after '['). */
  function Range(p: seq<char>, i: nat, t: char, f: Flags): (r: RangeResult)
    requires i <= |p|
    ensures r.RangeMatch? ==> i < r.next <= |p|
  {
    var negate := Ch(p, i) == '!' || Ch(p, i) == '^';
    var j := if negate then i + 1 else i;
    match ScanAt(p, j, Fold(t, f), false, f)
    case Broken => RangeError
    case SlashStop => RangeNoMatch
    case Closed(ok, n) => if ok == negate then RangeNoMatch else RangeMatch(n)
  }

  /** One member of a bracket body: broken, stopped at a slash, or ending just before `next`. */
  datatype Member = MBroken | MSlash | MNext(next: nat, c: char, ok: bool)

  /** The member char read at k, after an optional backslash. */
  function Head(p: seq<char>, k: nat, ok: bool, f: Flags): (m: Member)
    requires k <= |p|
    ensures m.MNext? ==> k < m.next <= |p| && m.ok == ok
  {
    var c0 := Ch(p, k);
    var esc := c0 == '\\' && !f.noescape;
    var c := if esc then Ch(p, k + 1) else c0;
    if c == '\0' then MBroken
    else if c == '/' && f.pathname then MSlash
    else MNext(if esc then k + 2 else k + 1, c, ok)
  }

  /** A "c-c2" range after the member c at j; the member becomes the lower end. */
  function RangePart(p: seq<char>, j: nat, c: char, t: char, ok: bool, f: Flags): (m: Member)
    requires j <= |p|
    ensures m.MNext? ==> j <= m.next <= |p|
    ensures m.MSlash? ==> false
  {
    if Ch(p, j) == '-' && Ch(p, j + 1) != '\0' && Ch(p, j + 1) != ']' then
      var c2raw := Ch(p, j + 1);
      var esc := c2raw == '\\' && !f.noescape;
      var c2 := if esc then Ch(p, j + 2) else c2raw;
      if c2 == '\0' then MBroken
      else MNext(if esc then j + 3 else j + 2, SpanLo(c, c2, f), ok || InSpan(c, c2, t, f))
    else MNext(j, c, ok)
  }

  /** "[:name:]" when c is '[' before a ':', else the member itself against t. */
  function ClassPart(p: seq<char>, j: nat, c: char, t: char, ok: bool, f: Flags): (m: Member)
    requires j <= |p|
    ensures m.MNext? && j <= m.next <= |p|
  {
    if c == '[' && Ch(p, j) == ':' && Ch(p, j + 1) != '\0' then
      if HasAt(p, j + 1, ":]") then MNext(j, c, ok)
      else match ClassAt(p, j, ClassNames)
        case Some(name) => MNext(j + |name| + 3, c, ok || InClass(name, t, f))
        case None => MNext(j, c, ok || c == t)
    else MNext(j, c, ok || c == t)
  }

  /** One pass of the do-while, for the member read at k. */
  function Pass(p: seq<char>, k: nat, t: char, ok: bool, f: Flags): (m: Member)
    requires k <= |p|
    ensures m.MNext? ==> k < m.next <= |p|
  {
    var h := Head(p, k, ok, f);
    if !h.MNext? then h
    else
      var r := RangePart(p, h.next, h.c, t, ok, f);
      if r.MNext? then ClassPart(p, r.next, r.c, t, r.ok, f) else r
  }

  /** The loop: passes until the char after a member is ']'. */
  function ScanAt(p: seq<char>, k: nat, t: char, ok: bool, f: Flags): (r: Scan)
    requires k <= |p|
    ensures r.Closed? ==> k < r.next <= |p|
    decreases |p| - k
  {
    match Pass(p, k, t, ok, f)
    case MBroken => Broken
    case MSlash => SlashStop
    case MNext(j, _, ok2) => if Ch(p, j) == ']' then Closed(ok2, j + 1) else ScanAt(p, j, t, ok2, f)
  }

  // ---------------------------------------------------------------------
  // wildmatch

  /** The first index at or after i that is not '*'. */
  function SkipStars(p: seq<char>, i: nat): (r: nat)
    requires i <= |p|
    ensures i <= r <= |p| && Ch(p, r) != '*'
    ensures forall k :: i <= k < r ==> p[k] == '*'
    decreases |p| - i
  {
    if Ch(p, i) == '*' then SkipStars(p, i + 1) else i
  }

  /** pattern[-2] for the star at pi: the char before it, or `before` at the pattern start. */
  function PrevChar(p: seq<char>, pi: nat, before: char): char
  {
    if 0 < pi <= |p| then p[pi - 1] else before
  }

  /** Where the collapse of a '/' followed by two or more stars leaves the pattern, and the remembered previous char. */
  datatype Collapsed = Collapsed(at: nat, prev: char)

  function Collapse(p: seq<char>, q: nat, prev: char): (r: Collapsed)
    requires q <= |p| && Ch(p, q) != '*'
    ensures q <= r.at <= |p| && Ch(p, r.at) != '*'
    ensures r.at == q ==> r.prev == prev
    decreases |p| - q
  {
    if Ch(p, q) == '/' && Ch(p, q + 1) == '*' && Ch(p, q + 2) == '*' then
      Collapse(p, SkipStars(p, q + 1), '/')
    else Collapsed(q, prev)
  }

  /**
   * wildmatch(pattern + pi, string + si, flags) inside a call whose
   * stringstart is `start`; true is WM_MATCH.  `before` is the byte in front
   * of the whole pattern, read for a "**" at its very start.  `fix` selects
   * the corrected readings of the slash search after "**" and "/" and of an unterminated
   * '['.  The flags are taken as already implied (WM_WILDSTAR sets
   * WM_PATHNAME), as every call after the first sees them.
   */
  function Matches(p: seq<char>, s: seq<char>, pi: nat, si: nat, start: nat, f: Flags, before: char, fix: bool): bool
    requires pi <= |p| && start <= si <= |s|
    decreases |p| - pi, 2, 0
  {
    match Advance(p, s, pi, si, start, f, fix)
    case Done(m) => m
    case Go(pi2, si2) => Matches(p, s, pi2, si2, start, f, before, fix)
    case AtStar => Star(p, s, pi, si, start, f, before, fix)
  }

  /** One turn of wildmatch's loop: a verdict, the positions to resume at, or a '*' to hand over. */
  datatype Adv = Done(matched: bool) | Go(pi: nat, si: nat) | AtStar

  /** The switch on the pattern char at pi, except '*'. */
  function Advance(p: seq<char>, s: seq<char>, pi: nat, si: nat, start: nat, f: Flags, fix: bool): (a: Adv)
    requires pi <= |p| && start <= si <= |s|
    ensures a.Go? ==> pi < a.pi <= |p| && si < a.si <= |s|
    ensures a.AtStar? ==> pi < |p| && p[pi] == '*'
  {
    var c := Ch(p, pi);
    if c == '\0' then
      Done((f.leadingDir && IsSlash(Ch(s, si), f)) || Ch(s, si) == '\0')
    else if c == '?' then
      if Ch(s, si) == '\0' || (IsSlash(s[si], f) && f.pathname) || LeadingPeriod(s, si, start, f) then Done(false)
      else Go(pi + 1, si + 1)
    else if c == '*' then AtStar
    else if c == '[' then
      if Ch(s, si) == '\0' || (IsSlash(s[si], f) && f.pathname) || LeadingPeriod(s, si, start, f) then Done(false)
      else match Range(p, pi + 1, s[si], f)
        case RangeError =>
          if fix then Normal(p, s, pi + 1, si, '[', f)
          else Normal(p, s, pi + 1, si + 1, '[', f)
        case RangeMatch(n) => Go(n, si + 1)
        case RangeNoMatch => Done(false)
    else if c == '\\' && !f.noescape then
      if Ch(p, pi + 1) == '\0' then
        // A trailing backslash stands for itself, but never against the last char.
        if Ch(s, si + 1) == '\0' then Done(false)
        else Normal(p, s, pi + 1, si, '\\', f)
      else Normal(p, s, pi + 2, si, p[pi + 1], f)
    else Normal(p, s, pi + 1, si, c, f)
  }

  /** The normal case: the pattern char c against the string char at si, then resume at npi. */
  function Normal(p: seq<char>, s: seq<char>, npi: nat, si: nat, c: char, f: Flags): (a: Adv)
    requires si <= |s|
    ensures a.Go? ==> a.pi == npi && a.si == si + 1 <= |s|
    ensures !a.AtStar?
  {
    if si < |s| && CharMatch(c, s[si], f) then Go(npi, si + 1) else Done(false)
  }

  /** The '*' case, for the star at pi: collapse the stars, then the early exits. */
  function Star(p: seq<char>, s: seq<char>, pi: nat, si: nat, start: nat, f: Flags, before: char, fix: bool): bool
    requires pi < |p| && start <= si <= |s|
    decreases |p| - pi, 1, 0
  {
    var wild := Wild(p, pi, f);
    var cl := StarPlan(p, pi, f, before);
    if wild && Ch(p, cl.at) == '/' && Matches(p, s, cl.at + 1, si, si, f, before, fix) then true
    else if !wild && LeadingPeriod(s, si, start, f) then false
    else StarRest(p, s, cl.at, cl.prev, wild, si, start, f, before, fix)
  }

  /** A second '*' right after the one at pi, under WM_WILDSTAR. */
  predicate Wild(p: seq<char>, pi: nat, f: Flags)
  {
    f.wildstar && Ch(p, pi + 1) == '*'
  }

  /** Where the star at pi leaves the pattern: past its run of stars and, for a wildstar, past the collapse. */
  function StarPlan(p: seq<char>, pi: nat, f: Flags, before: char): (cl: Collapsed)
    requires pi < |p|
    ensures pi < cl.at <= |p| && Ch(p, cl.at) != '*'
    ensures !Wild(p, pi, f) ==> cl == Collapsed(SkipStars(p, pi + 1), PrevChar(p, pi, before))
  {
    var q0 := SkipStars(p, pi + 1);
    if Wild(p, pi, f) then Collapse(p, q0, PrevChar(p, pi, before)) else Collapsed(q0, PrevChar(p, pi, before))
  }

  /** The '*' case after the collapse, with the pattern at q: end of pattern, a '/', or anything else. */
  function StarRest(p: seq<char>, s: seq<char>, q: nat, prev: char, wild: bool, si: nat, start: nat,
                    f: Flags, before: char, fix: bool): bool
    requires 0 < q <= |p| && start <= si <= |s|
    decreases |p| - q + 1, 0, 0
  {
    var c := Ch(p, q);
    if c == '\0' then
      if wild && prev == '/' then true
      else if f.pathname then f.leadingDir || SlashFrom(s, si, f).None?
      else true
    else if c == '/' then
      if wild then
        match SlashFrom(s, if fix then si else start, f)
        case None => false
        case Some(k) => SlashScan(p, s, q + 1, k, f, before, fix) || StarScan(p, s, q, si, f, before, fix)
      else if f.pathname then
        match SlashFrom(s, si, f)
        case None => false
        case Some(k) => StarScan(p, s, q, k, f, before, fix)
      else StarScan(p, s, q, si, f, before, fix)
    else if wild then false
    else StarScan(p, s, q, si, f, before, fix)
  }

  /** The loop after "**" and "/": the rest of the pattern after each slash from k on. */
  function SlashScan(p: seq<char>, s: seq<char>, r: nat, k: nat, f: Flags, before: char, fix: bool): bool
    requires 0 < r <= |p| && k < |s|
    decreases |p| - r, 3, |s| - k
  {
    if Matches(p, s, r, k + 1, k + 1, f, before, fix) then true
    else match SlashFrom(s, k + 1, f)
      case None => false
      case Some(k2) => SlashScan(p, s, r, k2, f, before, fix)
  }

  /**
   * The general case: the pattern from q at each string position from k
   * until the terminator, with WM_PERIOD dropped, stopping after a slash
   * under WM_PATHNAME.
   */
  function StarScan(p: seq<char>, s: seq<char>, q: nat, k: nat, f: Flags, before: char, fix: bool): bool
    requires 0 < q <= |p| && k <= |s|
    decreases |p| - q, 3, |s| - k
  {
    if Ch(s, k) == '\0' then false
    else if Matches(p, s, q, k, k, f.(period := false), before, fix) then true
    else if IsSlash(s[k], f) && f.pathname then false
    else StarScan(p, s, q, k + 1, f, before, fix)
  }

  /** wildmatch as the source has it; `before` is the byte in front of the pattern. */
  function GlobAsWritten(p: seq<char>, s: seq<char>, f: Flags, before: char): bool
  {
    Matches(p, s, 0, 0, 0, Implied(f), before, false)
  }

  /** wildmatch corrected: the slash search after "**" and "/" starts from the current position, an unterminated '[' is a literal, and a leading "**" counts as following a slash. */
  function Glob(p: seq<char>, s: seq<char>, f: Flags): bool
  {
    Matches(p, s, 0, 0, 0, Implied(f), '/', true)
  }

  // ---------------------------------------------------------------------
  // The C functions, corrected as Glob is

  /** find_slash */
  method FindSlash(s: seq<char>, i: nat, f: Flags) returns (r: Option<nat>)
    requires i <= |s|
    ensures r == SlashFrom(s, i, f)
  {
    var k := i;
    while Ch(s, k) != '\0'
      invariant i <= k <= |s|
      invariant SlashFrom(s, k, f) == SlashFrom(s, i, f)
      decreases |s| - k
    {
      if IsSlash(s[k], f) {
        return Some(k);
      }
      k := k + 1;
    }
    return None;
  }

  /** rangematch: the bracket body starts at i; the match result carries newp. */
  method RangeMatchAt(p: seq<char>, i: nat, test: char, f: Flags) returns (r: RangeResult)
    requires i <= |p|
    ensures r == Range(p, i, test, f)
  {
    var pat := i;
    var negate := Ch(p, pat) == '!' || Ch(p, pat) == '^';
    if negate {
      pat := pat + 1;
    }
    var t := test;
    if IsSlash(t, f) {
      t := '/';
    } else if f.casefold {
      t := ToLower(t);
    }
    assert t == Fold(test, f);
    var sc := ScanMembers(p, pat, t, f);
    match sc {
      case Broken => r := RangeError;
      case SlashStop => r := RangeNoMatch;
      case Closed(ok, n) => r := if ok == negate then RangeNoMatch else RangeMatch(n);
    }
  }

  /** The do-while over the members of a bracket body, from k on. */
  method ScanMembers(p: seq<char>, k: nat, t: char, f: Flags) returns (sc: Scan)
    requires k <= |p|
    ensures sc == ScanAt(p, k, t, false, f)
  {
    var pat, ok := k, false;
    while true
      invariant pat <= |p| && ScanAt(p, pat, t, ok, f) == ScanAt(p, k, t, false, f)
      decreases |p| - pat
    {
      var m := MemberPass(p, pat, t, ok, f);
      match m {
        case MBroken =>
          return Broken;
        case MSlash =>
          return SlashStop;
        case MNext(j, _, ok2) =>
          ok := ok2;
          if Ch(p, j) == ']' {
            return Closed(ok, j + 1);
          }
          pat := j;
      }
    }
  }

  /**
   * One pass of rangematch's loop: the member (after an optional
   * backslash), an optional "-c2" range end, then "[:name:]" or the member
   * itself against t.
   */
  method MemberPass(p: seq<char>, k: nat, t: char, ok: bool, f: Flags) returns (m: Member)
    requires k <= |p|
    ensures m == Pass(p, k, t, ok, f)
  {
    var pat := k;
    var c := Ch(p, pat);
    pat := pat + 1;
    if c == '\\' && !f.noescape {
      c := Ch(p, pat);
      pat := pat + 1;
    }
    if c == '\0' {
      return MBroken;
    }
    if c == '/' && f.pathname {
      return MSlash;
    }
    var r := RangeEnd(p, pat, c, t, ok, f);
    match r
    case MNext(j, c2, ok2) =>
      m := ClassEnd(p, j, c2, t, ok2, f);
    case _ =>
      m := r;
  }

  /** The optional "-c2" after a member: a reversed range is swapped. */
  method RangeEnd(p: seq<char>, j: nat, c: char, t: char, ok: bool, f: Flags) returns (m: Member)
    requires j <= |p|
    ensures m == RangePart(p, j, c, t, ok, f)
  {
    if Ch(p, j) == '-' && Ch(p, j + 1) != '\0' && Ch(p, j + 1) != ']' {
      var c2 := Ch(p, j + 1);
      var pat := j + 2;
      if c2 == '\\' && !f.noescape {
        c2 := Ch(p, pat);
        pat := pat + 1;
      }
      if c2 == '\0' {
        return MBroken;
      }
      return MNext(pat, SpanLo(c, c2, f), ok || InSpan(c, c2, t, f));
    }
    return MNext(j, c, ok);
  }

  /** "[:name:]" after a '[' member, else the member itself against t. */
  method ClassEnd(p: seq<char>, j: nat, c: char, t: char, ok: bool, f: Flags) returns (m: Member)
    requires j <= |p|
    ensures m == ClassPart(p, j, c, t, ok, f)
  {
    var pat, ok2 := j, ok;
    var member := true;
    if c == '[' && Ch(p, pat) == ':' && Ch(p, pat + 1) != '\0' {
      if HasAt(p, pat + 1, ":]") {
        member := false;
      } else {
        var name := ClassAt(p, pat, ClassNames);
        if name.Some? {
          if InClass(name.value, t, f) {
            ok2 := true;
          }
          pat := pat + |name.value| + 3;
          member := false;
        }
      }
    }
    if member && c == t {
      ok2 := true;
    }
    return MNext(pat, c, ok2);
  }

  /** The star-collapsing loop: the first index from i that is not '*'. */
  method SkipStarRun(p: seq<char>, i: nat) returns (j: nat)
    requires i <= |p|
    ensures j == SkipStars(p, i)
  {
    j := i;
    while Ch(p, j) == '*'
      invariant i <= j <= |p| && SkipStars(p, j) == SkipStars(p, i)
      decreases |p| - j
    {
      j := j + 1;
    }
  }

  /** wildmatch(pattern + pi0, string + si0, flags). */
  method Wildmatch(p: seq<char>, pi0: nat, s: seq<char>, si0: nat, flags: Flags) returns (r: bool)
    requires pi0 <= |p| && si0 <= |s|
    ensures r == Matches(p, s, pi0, si0, si0, Implied(flags), '/', true)
    decreases |p| - pi0, 2
  {
    var f := flags;
    if f.wildstar {
      f := f.(pathname := true);
    }
    var pi, si := pi0, si0;
    ghost var goal := Matches(p, s, pi0, si0, si0, f, '/', true);
    while true
      invariant pi0 <= pi <= |p| && si0 <= si <= |s|
      invariant Matches(p, s, pi, si, si0, f, '/', true) == goal
      decreases |p| - pi
    {
      var a := Step(p, s, pi, si, si0, f);
      match a
      case Done(m) =>
        return m;
      case Go(pi2, si2) =>
        pi, si := pi2, si2;
      case AtStar =>
        r := StarCase(p, pi, s, si, si0, f);
        return;
    }
  }

  /** The body of wildmatch's loop: the switch on the next pattern char. */
  method Step(p: seq<char>, s: seq<char>, pi: nat, si: nat, start: nat, f: Flags) returns (a: Adv)
    requires pi <= |p| && start <= si <= |s|
    ensures a == Advance(p, s, pi, si, start, f, true)
  {
    var c := Ch(p, pi);
    if c == '\0' {
      return Done((f.leadingDir && IsSlash(Ch(s, si), f)) || Ch(s, si) == '\0');
    }
    if c == '?' {
      if Ch(s, si) == '\0' || (IsSlash(s[si], f) && f.pathname) || LeadingPeriod(s, si, start, f) {
        return Done(false);
      }
      return Go(pi + 1, si + 1);
    }
    if c == '*' {
      return AtStar;
    }
    if c == '[' {
      if Ch(s, si) == '\0' || (IsSlash(s[si], f) && f.pathname) || LeadingPeriod(s, si, start, f) {
        return Done(false);
      }
      var rm := RangeMatchAt(p, pi + 1, s[si], f);
      match rm {
        case RangeError =>
          // not a good range: '[' is compared as normal text
          a := NormalStep(p, s, pi + 1, si, '[', f);
        case RangeMatch(n) =>
          a := Go(n, si + 1);
        case RangeNoMatch =>
          a := Done(false);
      }
      return;
    }
    var npi := pi + 1;
    if c == '\\' && !f.noescape {
      c := Ch(p, npi);
      npi := npi + 1;
      if c == '\0' {
        c := '\\';
        npi := npi - 1;
        if Ch(s, si + 1) == '\0' {
          return Done(false);
        }
      }
    }
    a := NormalStep(p, s, npi, si, c, f);
  }

  /** The normal case of the switch. */
  method NormalStep(p: seq<char>, s: seq<char>, npi: nat, si: nat, c: char, f: Flags) returns (a: Adv)
    requires si <= |s|
    ensures a == Normal(p, s, npi, si, c, f)
  {
    if c != Ch(s, si) && !(f.casefold && ToLower(c) == ToLower(Ch(s, si))) {
      if !(c == '/' && IsSlash(Ch(s, si), f)) {
        return Done(false);
      }
    }
    if si == |s| {
      // only a NUL pattern char would compare equal to the terminator
      return Done(false);
    }
    return Go(npi, si + 1);
  }

  /** The loop collapsing "/" followed by stars, after a wildstar. */
  method CollapseRun(p: seq<char>, q: nat, prev: char) returns (pat: nat, last: char)
    requires q <= |p| && Ch(p, q) != '*'
    ensures Collapsed(pat, last) == Collapse(p, q, prev)
  {
    pat, last := q, prev;
    var c := Ch(p, pat);
    while c == '/' && Ch(p, pat + 1) == '*' && Ch(p, pat + 2) == '*'
      invariant pat <= |p| && c == Ch(p, pat) && c != '*'
      invariant Collapse(p, pat, last) == Collapse(p, q, prev)
      decreases |p| - pat
    {
      last := c;
      pat := SkipStarRun(p, pat + 1);
      c := Ch(p, pat);
    }
  }

  /** The '*' case of wildmatch, for the star at pi. */
  method StarCase(p: seq<char>, pi: nat, s: seq<char>, si: nat, start: nat, f: Flags) returns (r: bool)
    requires pi < |p| && p[pi] == '*' && start <= si <= |s|
    requires f.wildstar ==> f.pathname
    ensures r == Star(p, s, pi, si, start, f, '/', true)
    decreases |p| - pi, 1
  {
    var wild := f.wildstar && Ch(p, pi + 1) == '*';
    var cl := PlanStar(p, pi, f);
    if wild && Ch(p, cl.at) == '/' {
      var m := Wildmatch(p, cl.at + 1, s, si, f);
      if m {
        return true;
      }
    }
    if !wild && LeadingPeriod(s, si, start, f) {
      return false;
    }
    r := StarTail(p, cl.at, cl.prev, wild, s, si, start, f);
  }

  /** The skip over the run of stars and, for a wildstar, the collapse loop. */
  method PlanStar(p: seq<char>, pi: nat, f: Flags) returns (cl: Collapsed)
    requires pi < |p|
    ensures cl == StarPlan(p, pi, f, '/')
  {
    var prev := PrevChar(p, pi, '/');
    var pat := SkipStarRun(p, pi + 1);
    if f.wildstar && Ch(p, pi + 1) == '*' {
      pat, prev := CollapseRun(p, pat, prev);
    }
    cl := Collapsed(pat, prev);
  }

  /** The rest of the '*' case, with the pattern at q after the collapse. */
  method StarTail(p: seq<char>, q: nat, prev: char, wild: bool, s: seq<char>, si: nat, start: nat, f: Flags) returns (r: bool)
    requires 0 < q <= |p| && start <= si <= |s|
    requires f.wildstar ==> f.pathname
    ensures r == StarRest(p, s, q, prev, wild, si, start, f, '/', true)
    decreases |p| - q + 1, 0
  {
    var c := Ch(p, q);
    var from := si;
    if c == '\0' {
      if wild && prev == '/' {
        return true;
      }
      if f.pathname {
        var slash := FindSlash(s, si, f);
        return f.leadingDir || slash.None?;
      }
      return true;
    } else if c == '/' {
      if wild {
        var slash := FindSlash(s, si, f);
        if slash.None? {
          return false;
        }
        var m := SlashLoop(p, q + 1, s, slash.value, f);
        if m {
          return true;
        }
      } else if f.pathname {
        var slash := FindSlash(s, si, f);
        if slash.None? {
          return false;
        }
        from := slash.value;
      }
    } else if wild {
      return false;
    }
    r := GeneralLoop(p, q, s, from, f);
  }

  /** The loop over slashes after "**" and "/": the rest of the pattern after each one. */
  method SlashLoop(p: seq<char>, rest: nat, s: seq<char>, k0: nat, f: Flags) returns (r: bool)
    requires 0 < rest <= |p| && k0 < |s|
    requires f.wildstar ==> f.pathname
    ensures r == SlashScan(p, s, rest, k0, f, '/', true)
    decreases |p| - rest, 3
  {
    var slash := Some(k0);
    while slash.Some?
      invariant slash.Some? ==> slash.value < |s| && SlashScan(p, s, rest, slash.value, f, '/', true) == SlashScan(p, s, rest, k0, f, '/', true)
      invariant slash.None? ==> !SlashScan(p, s, rest, k0, f, '/', true)
      decreases if slash.Some? then |s| - slash.value else 0
    {
      var m := Wildmatch(p, rest, s, slash.value + 1, f);
      if m {
        return true;
      }
      slash := FindSlash(s, slash.value + 1, f);
    }
    return false;
  }

  /** The general case: the pattern from q tried at each string position from k0, with WM_PERIOD dropped. */
  method GeneralLoop(p: seq<char>, q: nat, s: seq<char>, k0: nat, f: Flags) returns (r: bool)
    requires 0 < q <= |p| && k0 <= |s|
    requires f.wildstar ==> f.pathname
    ensures r == StarScan(p, s, q, k0, f, '/', true)
    decreases |p| - q, 3
  {
    var k := k0;
    while Ch(s, k) != '\0'
      invariant k0 <= k <= |s| && StarScan(p, s, q, k, f, '/', true) == StarScan(p, s, q, k0, f, '/', true)
      decreases |s| - k
    {
      var m := Wildmatch(p, q, s, k, f.(period := false));
      if m {
        return true;
      }
      if IsSlash(s[k], f) && f.pathname {
        break;
      }
      k := k + 1;
    }
    return false;
  }

  // ---------------------------------------------------------------------
  // Findings

  const NoFlags := Flags(false, false, false, false, false, false, false)
  const StarFlags := NoFlags.(wildstar := true)

  /** As written, the slash search after "**" and "/" restarts at stringstart, so the pattern x/y/(two stars)/y/z matches "x/y/z". */
  lemma WildstarSearchesFromStart()
    ensures GlobAsWritten("x/y/**/y/z", "x/y/z", StarFlags, '/')
  {
    var p, s, g := "x/y/**/y/z", "x/y/z", Implied(StarFlags);
    assert Matches(p, s, 7, 2, 2, g, '/', false);
    assert SlashFrom(s, 0, g) == Some(1);
    assert SlashScan(p, s, 7, 1, g, '/', false);
    assert StarRest(p, s, 6, '/', true, 4, 0, g, '/', false);
    assert Star(p, s, 4, 4, 0, g, '/', false);
    assert Matches(p, s, 2, 2, 0, g, '/', false);
  }

  /** Searching from the current position, the same pattern needs a "y/z" after "x/y/". */
  lemma WildstarSearchesFromHere()
    ensures !Glob("x/y/**/y/z", "x/y/z", StarFlags)
  {
    var p, s, g := "x/y/**/y/z", "x/y/z", Implied(StarFlags);
    assert !Matches(p, s, 7, 4, 4, g, '/', true);
    assert SlashFrom(s, 4, g) == None;
    assert !StarRest(p, s, 6, '/', true, 4, 0, g, '/', true);
    assert !Star(p, s, 4, 4, 0, g, '/', true);
    assert !Matches(p, s, 2, 2, 0, g, '/', true);
  }

  /** As written, an unterminated '[' skips a string char before comparing: "[" fails on "[" and matches "x[". */
  lemma BrokenBracketSkipsChar(f: Flags, before: char)
    ensures !GlobAsWritten("[", "[", f, before)
    ensures !f.leadingDir ==> GlobAsWritten("[", "x[", f, before)
  {
  }

  /** Corrected, an unterminated '[' is the literal '['. */
  lemma BrokenBracketIsLiteral(s: seq<char>, f: Flags)
    requires IsCString(s) && !f.leadingDir
    ensures Glob("[", s, f) <==> s == "["
  {
  }

  /** As written, a leading "**" reads the byte before the pattern: the result depends on memory outside it. */
  lemma LeadingWildstarReadsBefore()
    ensures GlobAsWritten("**", "a/b", StarFlags, '/')
    ensures !GlobAsWritten("**", "a/b", StarFlags, 'x')
  {
  }

  /** Corrected, a whole-pattern "**" matches every string. */
  lemma LeadingWildstarMatchesAll(s: seq<char>, f: Flags)
    requires f.wildstar
    ensures Glob("**", s, f)
  {
  }

  // ---------------------------------------------------------------------
  // Properties

  /** find_slash finds the first slash before the terminator, and none exactly when there is none. */
  lemma {:induction false} SlashFromFirst(s: seq<char>, i: nat, f: Flags)
    requires IsCString(s) && i <= |s|
    ensures SlashFrom(s, i, f).None? <==> forall k :: i <= k < |s| ==> !IsSlash(s[k], f)
    ensures SlashFrom(s, i, f).Some? ==> forall k :: i <= k < SlashFrom(s, i, f).value ==> !IsSlash(s[k], f)
    decreases |s| - i
  {
    if i < |s| {
      assert s[i] in s;
      if !IsSlash(s[i], f) {
        SlashFromFirst(s, i + 1, f);
      }
    }
  }

  /** No wildcard, bracket or escape characters. */
  predicate Plain(p: seq<char>)
  {
    forall k :: 0 <= k < |p| ==> p[k] != '?' && p[k] != '*' && p[k] != '[' && p[k] != '\\' && p[k] != '\0'
  }

  /** Two strings of one length that agree char by char under CharMatch. */
  predicate Agree(a: seq<char>, b: seq<char>, f: Flags)
  {
    |a| == |b| && forall k :: 0 <= k < |a| ==> CharMatch(a[k], b[k], f)
  }

  lemma AgreeCons(a: seq<char>, b: seq<char>, f: Flags)
    requires 0 < |a| && 0 < |b|
    ensures Agree(a, b, f) <==> CharMatch(a[0], b[0], f) && Agree(a[1..], b[1..], f)
  {
    if CharMatch(a[0], b[0], f) && Agree(a[1..], b[1..], f) {
      forall k | 0 < k < |a| ensures CharMatch(a[k], b[k], f) {
        assert a[k] == a[1..][k - 1] && b[k] == b[1..][k - 1];
      }
    }
  }

  /** A plain pattern suffix matches a string suffix that agrees with it char by char, and nothing else. */
  lemma {:induction false} PlainSuffix(p: seq<char>, s: seq<char>, i: nat, j: nat, start: nat, f: Flags, before: char, fix: bool)
    requires Plain(p) && IsCString(s) && !f.leadingDir
    requires i <= |p| && start <= j <= |s|
    ensures Matches(p, s, i, j, start, f, before, fix) <==> Agree(p[i..], s[j..], f)
    decreases |p| - i
  {
    if i < |p| {
      if j < |s| {
        PlainSuffix(p, s, i + 1, j + 1, start, f, before, fix);
        AgreeCons(p[i..], s[j..], f);
        assert p[i..][1..] == p[i + 1..] && s[j..][1..] == s[j + 1..];
      }
    } else if j < |s| {
      assert s[j] in s;
    }
  }

  /** Without WM_LEADING_DIR, a plain pattern matches exactly the strings that agree with it char by char. */
  lemma PlainMatches(p: seq<char>, s: seq<char>, f: Flags)
    requires Plain(p) && IsCString(s) && !f.leadingDir
    ensures Glob(p, s, f) <==> Agree(p, s, f)
  {
    PlainSuffix(p, s, 0, 0, 0, Implied(f), '/', true);
    assert p[0..] == p && s[0..] == s;
  }

  /** Without WM_CASEFOLD and WM_SLASHFOLD as well, a plain pattern matches itself and nothing else. */
  lemma PlainMatchesItself(p: seq<char>, s: seq<char>, f: Flags, before: char)
    requires Plain(p) && IsCString(s) && !f.leadingDir && !f.casefold && !f.slashfold
    ensures Glob(p, s, f) <==> s == p
    ensures GlobAsWritten(p, s, f, before) <==> s == p
  {
    PlainSuffix(p, s, 0, 0, 0, Implied(f), '/', true);
    PlainSuffix(p, s, 0, 0, 0, Implied(f), before, false);
    assert p[0..] == p && s[0..] == s;
    if Agree(p, s, Implied(f)) {
      assert forall k :: 0 <= k < |p| ==> p[k] == s[k];
    }
  }

  /** The string char at k can be taken by a '?'. */
  predicate OneChar(s: seq<char>, k: nat, start: nat, f: Flags)
    requires start <= k < |s|
  {
    !(IsSlash(s[k], f) && f.pathname) && !LeadingPeriod(s, k, start, f)
  }

  /** A pattern suffix of n '?' matches exactly n chars, none a slash under WM_PATHNAME or a protected '.'. */
  lemma {:induction false} QuestionsSuffix(p: seq<char>, s: seq<char>, i: nat, j: nat, start: nat, f: Flags, before: char, fix: bool)
    requires IsCString(s) && !f.leadingDir && forall k :: 0 <= k < |p| ==> p[k] == '?'
    requires i <= |p| && start <= j <= |s|
    ensures Matches(p, s, i, j, start, f, before, fix) <==>
              |p| - i == |s| - j && forall k :: j <= k < |s| ==> OneChar(s, k, start, f)
    decreases |p| - i
  {
    if i < |p| {
      if j < |s| {
        assert s[j] in s;
        QuestionsSuffix(p, s, i + 1, j + 1, start, f, before, fix);
        if !OneChar(s, j, start, f) {
          assert !(forall k :: j <= k < |s| ==> OneChar(s, k, start, f));
        }
      }
    } else if j < |s| {
      assert s[j] in s;
    }
  }

  /** '?' matches one char: the whole-pattern form. */
  lemma QuestionsMatch(p: seq<char>, s: seq<char>, f: Flags)
    requires IsCString(s) && !f.leadingDir && forall k :: 0 <= k < |p| ==> p[k] == '?'
    ensures Glob(p, s, f) <==> |p| == |s| && forall k :: 0 <= k < |s| ==> OneChar(s, k, 0, Implied(f))
  {
    QuestionsSuffix(p, s, 0, 0, 0, Implied(f), '/', true);
  }

  /** A '?' never matches a slash under WM_PATHNAME (and, with WM_SLASHFOLD, never a backslash). */
  lemma QuestionSkipsSlash(s: seq<char>, f: Flags)
    requires f.pathname || f.wildstar
    ensures !Glob("?", "/", f)
    ensures f.slashfold <==> !Glob("?", "\\", f)
  {
  }

  /** A trailing run of stars that is not a wildstar matches any rest, except a slash under WM_PATHNAME. */
  lemma TrailingStar(p: seq<char>, s: seq<char>, i: nat, j: nat, start: nat, f: Flags, before: char, fix: bool)
    requires IsCString(s) && i < |p| && start <= j <= |s|
    requires forall k :: i <= k < |p| ==> p[k] == '*'
    requires !f.wildstar || i + 1 == |p|
    ensures Matches(p, s, i, j, start, f, before, fix) <==>
              !LeadingPeriod(s, j, start, f) &&
              (!f.pathname || f.leadingDir || forall k :: j <= k < |s| ==> !IsSlash(s[k], f))
  {
    assert SkipStars(p, i + 1) == |p|;
    SlashFromFirst(s, j, f);
    assert Matches(p, s, i, j, start, f, before, fix) == Star(p, s, i, j, start, f, before, fix);
    if !LeadingPeriod(s, j, start, f) {
      assert Star(p, s, i, j, start, f, before, fix) ==
             StarRest(p, s, |p|, PrevChar(p, i, before), false, j, start, f, before, fix);
    }
  }

  /** A "**" closing the pattern after a '/' matches any rest, slashes included. */
  lemma TrailingWildstar(p: seq<char>, s: seq<char>, i: nat, j: nat, start: nat, f: Flags, before: char, fix: bool)
    requires 0 < i && i + 2 == |p| && p[i - 1] == '/' && p[i] == '*' && p[i + 1] == '*'
    requires start <= j <= |s| && f.wildstar
    ensures Matches(p, s, i, j, start, f, before, fix)
  {
    assert SkipStars(p, i + 1) == |p|;
  }

  /** Under WM_PERIOD a protected '.' is not matched by '?', '[' or a '*' that is not a wildstar. */
  lemma PeriodNotWild(p: seq<char>, s: seq<char>, i: nat, j: nat, start: nat, f: Flags, before: char, fix: bool)
    requires i < |p| && start <= j <= |s| && LeadingPeriod(s, j, start, f)
    requires p[i] == '?' || p[i] == '[' || (p[i] == '*' && !(f.wildstar && Ch(p, i + 1) == '*'))
    ensures !Matches(p, s, i, j, start, f, before, fix)
  {
  }

  /** The whole-pattern form: a name starting with '.' needs the '.' spelled out. */
  lemma PeriodAtStart(p: seq<char>, s: seq<char>, f: Flags)
    requires 0 < |p| && 0 < |s| && s[0] == '.' && f.period
    requires p[0] == '?' || p[0] == '[' || (p[0] == '*' && !(f.wildstar && Ch(p, 1) == '*'))
    ensures !Glob(p, s, f)
  {
    PeriodNotWild(p, s, 0, 0, 0, Implied(f), '/', true);
  }

  /** WM_WILDSTAR implies WM_PATHNAME. */
  lemma WildstarImpliesPathname(p: seq<char>, s: seq<char>, f: Flags)
    requires f.wildstar
    ensures Glob(p, s, f) == Glob(p, s, f.(pathname := true))
  {
  }

  /** Under WM_SLASHFOLD a pattern '/' matches a backslash, and only then. */
  lemma SlashfoldMatchesBackslash(f: Flags)
    requires !f.casefold
    ensures Glob("/", "\\", f) <==> f.slashfold
  {
  }

  /** '!' and '^' negate: the same members, the opposite verdict, unless the set is broken or stops at a slash. */
  lemma NegationFlips(p: seq<char>, i: nat, t: char, f: Flags)
    requires i < |p| && (p[i] == '!' || p[i] == '^') && Ch(p, i + 1) != '!' && Ch(p, i + 1) != '^'
    ensures Range(p, i, t, f).RangeError? <==> Range(p, i + 1, t, f).RangeError?
    ensures ScanAt(p, i + 1, Fold(t, f), false, f).Closed? ==>
              (Range(p, i, t, f).RangeMatch? <==> Range(p, i + 1, t, f) == RangeNoMatch)
    ensures ScanAt(p, i + 1, Fold(t, f), false, f).Closed? ==>
              (Range(p, i, t, f) == RangeNoMatch <==> Range(p, i + 1, t, f).RangeMatch?)
  {
  }

  /** A range member "x-y" takes the span between its ends whichever comes first. */
  lemma RangeEitherOrder(p: seq<char>, i: nat, x: char, y: char, t: char, f: Flags)
    requires i + 4 <= |p| && p[i] == x && p[i + 1] == '-' && p[i + 2] == y && p[i + 3] == ']'
    requires x != '!' && x != '^' && x != '\\' && x != '/' && x != '\0' && x != ']'
    requires y != '\\' && y != '\0' && y != ']'
    ensures Range(p, i, t, f) == RangeNoMatch || Range(p, i, t, f) == RangeMatch(i + 4)
    ensures Range(p, i, t, f).RangeMatch? <==>
              (Signed(Lower(x, f)) <= Signed(Fold(t, f)) <= Signed(Lower(y, f)) ||
               Signed(Lower(y, f)) <= Signed(Fold(t, f)) <= Signed(Lower(x, f)))
  {
    var u := Fold(t, f);
    SpanMember(p, i, x, y, u, f);
    assert ScanAt(p, i, u, false, f) == Closed(InSpan(x, y, u, f), i + 4);
  }

  /** The member "x-y" at i, followed by ']', is one pass that tests the span. */
  lemma SpanMember(p: seq<char>, i: nat, x: char, y: char, u: char, f: Flags)
    requires i + 4 <= |p| && p[i] == x && p[i + 1] == '-' && p[i + 2] == y && p[i + 3] == ']'
    requires x != '\\' && x != '/' && x != '\0' && x != ']'
    requires y != '\\' && y != '\0' && y != ']'
    ensures Pass(p, i, u, false, f) == MNext(i + 3, SpanLo(x, y, f), InSpan(x, y, u, f))
  {
    assert Head(p, i, false, f) == MNext(i + 1, x, false);
    assert RangePart(p, i + 1, x, u, false, f) == MNext(i + 3, SpanLo(x, y, f), InSpan(x, y, u, f));
  }

  /** From k on nothing can close the set or stop it at a slash. */
  predicate Unclosed(p: seq<char>, k: nat, f: Flags)
  {
    forall m :: k <= m < |p| ==> p[m] != ']' && !(f.pathname && p[m] == '/')
  }

  lemma {:induction false} ScanUnclosed(p: seq<char>, k: nat, t: char, ok: bool, f: Flags)
    requires k <= |p| && Unclosed(p, k, f)
    ensures ScanAt(p, k, t, ok, f) == Broken
    decreases |p| - k
  {
    assert !Head(p, k, ok, f).MSlash?;
    var m := Pass(p, k, t, ok, f);
    if m.MNext? {
      ScanUnclosed(p, m.next, t, m.ok, f);
    }
  }

  /** A '[' that nothing closes is RANGE_ERROR, never a match or a no-match. */
  lemma UnterminatedRange(p: seq<char>, i: nat, t: char, f: Flags)
    requires i <= |p| && Unclosed(p, i, f)
    ensures Range(p, i, t, f) == RangeError
  {
    var negate := Ch(p, i) == '!' || Ch(p, i) == '^';
    ScanUnclosed(p, if negate then i + 1 else i, Fold(t, f), false, f);
  }
}
