// The AutoRun value handling of Clink's loader (autorun.cpp): finding
// Clink's own command inside cmd.exe's AutoRun registry string, cutting it
// out on uninstall, and appending it on install.
//
// Registry values are modelled as the text of their C strings; reading and
// writing the registry is not modelled, so the operations return the value
// to store instead.

module Autorun {
  import opened Common

  /** The texts that mark Clink's entry, in the order they are tried. */
  const Needles: seq<string> := [
    "clink inject",
    "clink\" inject",
    "clink_x64.exe inject",
    "clink_x86.exe inject",
    "clink_x64.exe\" inject",
    "clink_x86.exe\" inject",
    "clink.bat inject",
    "clink.bat\" inject"
  ]

  // ---------------------------------------------------------------------
  // The C library searches the entry finder relies on.

  /** The leftmost position at or after k where needle occurs in hay. */
  function FindFrom(hay: string, needle: string, k: nat): (r: Option<nat>)
    ensures r.Some? ==> k <= r.value && r.value + |needle| <= |hay|
    decreases |hay| - k
  {
    if k + |needle| > |hay| then None
    else if OccursAt(hay, needle, k) then Some(k)
    else FindFrom(hay, needle, k + 1)
  }

  /** strstr. */
  function StrStr(hay: string, needle: string): (r: Option<nat>)
  {
    FindFrom(hay, needle, 0)
  }

  lemma {:induction false} FindFromLeftmost(hay: string, needle: string, k: nat, j: nat)
    ensures FindFrom(hay, needle, k) == Some(j) <==>
              k <= j && OccursAt(hay, needle, j) && forall m :: k <= m < j ==> !OccursAt(hay, needle, m)
    decreases |hay| - k
  {
    if k + |needle| <= |hay| && !OccursAt(hay, needle, k) {
      FindFromLeftmost(hay, needle, k + 1, j);
    }
  }

  lemma {:induction false} FindFromNone(hay: string, needle: string, k: nat)
    ensures FindFrom(hay, needle, k) == None <==> forall m :: k <= m ==> !OccursAt(hay, needle, m)
    decreases |hay| - k
  {
    if k + |needle| <= |hay| && !OccursAt(hay, needle, k) {
      FindFromNone(hay, needle, k + 1);
    }
  }

  /** The first position at or after k holding ch (strchr from k). */
  function CharFrom(s: string, k: nat, ch: char): (r: Option<nat>)
    ensures r.Some? ==> k <= r.value < |s|
    decreases |s| - k
  {
    if k >= |s| then None
    else if s[k] == ch then Some(k)
    else CharFrom(s, k + 1, ch)
  }

  lemma {:induction false} CharFromFirst(s: string, k: nat, ch: char)
    ensures match CharFrom(s, k, ch)
            case Some(c) => k <= c < |s| && s[c] == ch && forall m :: k <= m < c ==> s[m] != ch
            case None => forall m :: k <= m < |s| ==> s[m] != ch
    decreases |s| - k
  {
    if k < |s| && s[k] != ch {
      CharFromFirst(s, k + 1, ch);
    }
  }

  /** The last position in (0, c] holding ch: the backwards walk of
      find_clink_entry stops before the first character of the value. */
  function LastAbove(s: string, c: nat, ch: char): (r: Option<nat>)
    requires c < |s|
    ensures r.Some? ==> 0 < r.value <= c
  {
    if c == 0 then None
    else if s[c] == ch then Some(c)
    else LastAbove(s, c - 1, ch)
  }

  lemma {:induction false} LastAboveIs(s: string, c: nat, ch: char, a: nat)
    requires c < |s|
    ensures LastAbove(s, c, ch) == Some(a) <==>
              0 < a <= c && s[a] == ch && forall m :: a < m <= c ==> s[m] != ch
  {
    if c > 0 && s[c] != ch {
      LastAboveIs(s, c - 1, ch, a);
    }
  }

  lemma {:induction false} LastAboveNone(s: string, c: nat, ch: char)
    requires c < |s|
    ensures LastAbove(s, c, ch) == None <==> forall m :: 0 < m <= c ==> s[m] != ch
  {
    if c > 0 && s[c] != ch {
      LastAboveNone(s, c - 1, ch);
    }
  }

  // ---------------------------------------------------------------------
  // find_clink_entry.

  /** Every needle has at least one character. */
  predicate NonEmpty(needles: seq<string>)
  {
    forall n :: 0 <= n < |needles| ==> |needles[n]| > 0
  }

  lemma NeedlesNonEmpty()
    ensures NonEmpty(Needles)
  {
  }

  /** Where the first needle from i on, in needle order, that occurs in the
      value occurs first. */
  function TagFrom(value: string, needles: seq<string>, i: nat): (r: Option<nat>)
    requires i <= |needles| && NonEmpty(needles)
    ensures r.Some? ==> r.value < |value|
    decreases |needles| - i
  {
    if i == |needles| then None
    else match StrStr(value, needles[i])
      case Some(t) => Some(t)
      case None => TagFrom(value, needles, i + 1)
  }

  /** The position find_clink_entry's strstr loop settles on. */
  function Tag(value: string): (r: Option<nat>)
    ensures r.Some? ==> r.value < |value|
  {
    NeedlesNonEmpty();
    TagFrom(value, Needles, 0)
  }

  /** No tag is found exactly when no needle occurs anywhere. */
  lemma {:induction false} TagFromNone(value: string, needles: seq<string>, i: nat)
    requires i <= |needles| && NonEmpty(needles)
    ensures TagFrom(value, needles, i).None? <==>
              forall n, k :: i <= n < |needles| ==> !OccursAt(value, needles[n], k)
    decreases |needles| - i
  {
    if i < |needles| {
      FindFromNone(value, needles[i], 0);
      TagFromNone(value, needles, i + 1);
    }
  }

  /** A tag is the first occurrence of the first needle that occurs at all. */
  lemma {:induction false} TagFromSome(value: string, needles: seq<string>, i: nat, t: nat)
    requires i <= |needles| && NonEmpty(needles)
    requires TagFrom(value, needles, i) == Some(t)
    ensures exists n :: i <= n < |needles| && StrStr(value, needles[n]) == Some(t) &&
                        forall p :: i <= p < n ==> StrStr(value, needles[p]).None?
    decreases |needles| - i
  {
    if StrStr(value, needles[i]).None? {
      TagFromSome(value, needles, i + 1, t);
      var n :| i + 1 <= n < |needles| && StrStr(value, needles[n]) == Some(t) &&
               forall p :: i + 1 <= p < n ==> StrStr(value, needles[p]).None?;
      assert forall p :: i <= p < n ==> StrStr(value, needles[p]).None?;
    }
  }

  /** The needle loop of find_clink_entry. */
  method FindTag(value: string, needles: seq<string>) returns (tag: Option<nat>)
    requires NonEmpty(needles)
    ensures tag == TagFrom(value, needles, 0)
  {
    tag := None;
    var i := 0;
    while i < |needles|
      invariant 0 <= i <= |needles|
      invariant TagFrom(value, needles, i) == TagFrom(value, needles, 0)
      invariant tag.None?
    {
      tag := StrStr(value, needles[i]);
      if tag.Some? {
        assert tag == TagFrom(value, needles, i);
        return;
      }
      i := i + 1;
    }
  }

  /** The right extent: the first `&` at or after the tag, or the end. */
  function RightExtent(value: string, tag: nat): (r: nat)
  {
    match CharFrom(value, tag, '&')
    case Some(c) => c
    case None => |value|
  }

  /** Whether Clink's path is quoted: the first space after the tag follows a
      quote. Every needle has a space after its first character, so that
      space is never the first character of the value. */
  predicate IsQuoted(value: string, tag: nat)
  {
    match CharFrom(value, tag, ' ')
    case Some(c) => c >= 1 && value[c - 1] == '"'
    case None => false
  }

  /** The left extent of an unquoted entry searched back from c: the closest
      `&` above position 0, or the first of a `&&` pair, or the start. */
  function AmpLeft(value: string, c: nat): (r: nat)
    requires c < |value|
    ensures r <= c
  {
    match LastAbove(value, c, '&')
    case None => 0
    case Some(a) => a - (if value[a - 1] == '&' then 1 else 0)
  }

  /** The left extent: for a quoted entry the walk first passes the opening
      quote, then looks for the separator before it. */
  function LeftExtent(value: string, tag: nat, quoted: bool): (r: nat)
    requires tag < |value|
    ensures r <= tag
  {
    if !quoted then AmpLeft(value, tag)
    else match LastAbove(value, tag, '"')
      case None => 0
      case Some(q) => AmpLeft(value, q - 1)
  }


  /** find_clink_entry: whether the value holds Clink's entry, and the
      extents [left, right) of the text to cut out for it. */
  method FindClinkEntry(value: string) returns (found: bool, left: int, right: int)
    ensures found <==> Tag(value).Some?
    ensures !found <==> forall n, k :: 0 <= n < |Needles| ==> !OccursAt(value, Needles[n], k)
    ensures found ==> 0 <= left <= right <= |value|
    ensures found ==> var t := Tag(value).value;
              right == RightExtent(value, t) && left == LeftExtent(value, t, IsQuoted(value, t))
  {
    NeedlesNonEmpty();
    var tag := FindTag(value, Needles);
    TagFromNone(value, Needles, 0);
    if tag.None? {
      return false, 0, 0;
    }
    var t := tag.value;
    right := RightExtent(value, t);
    var quoted := IsQuoted(value, t);
    left := WalkLeft(value, t, quoted);
    found := true;
  }

  /** The backwards walk of find_clink_entry from the tag. */
  method WalkLeft(value: string, tag: nat, quoted: bool) returns (left: nat)
    requires tag < |value|
    ensures left == LeftExtent(value, tag, quoted)
  {
    var q := quoted;
    var target := if quoted then '"' else '&';
    var c := tag;
    ghost var quote: nat := 0;
    while c > 0
      invariant 0 <= c <= tag
      invariant target == if q then '"' else '&'
      invariant q ==> quoted && forall m :: c < m <= tag ==> value[m] != '"'
      invariant !q && quoted ==> 0 < quote <= tag && LastAbove(value, tag, '"') == Some(quote) && c < quote
      invariant !q ==> forall m :: c < m <= (if quoted then quote - 1 else tag) ==> value[m] != '&'
    {
      if value[c] == target {
        if !q {
          LastAboveIs(value, if quoted then quote - 1 else tag, '&', c);
          return c - (if value[c - 1] == target then 1 else 0);
        }
        LastAboveIs(value, tag, '"', c);
        quote := c;
        q := false;
        target := '&';
      }
      c := c - 1;
    }
    if q {
      LastAboveNone(value, tag, '"');
    } else {
      LastAboveNone(value, if quoted then quote - 1 else tag, '&');
    }
    left := 0;
  }

  // ---------------------------------------------------------------------
  // get_cmd_start, uninstall and install.

  /** get_cmd_start: the index of the first character that is neither white
      space nor `&`. */
  function CmdStart(s: string, i: nat): (k: nat)
    requires i <= |s|
    ensures i <= k <= |s|
    ensures forall j :: i <= j < k ==> IsSpace(s[j]) || s[j] == '&'
    ensures k < |s| ==> !IsSpace(s[k]) && s[k] != '&'
    decreases |s| - i
  {
    if i < |s| && (IsSpace(s[i]) || s[i] == '&') then CmdStart(s, i + 1) else i
  }

  /** The copy loop of uninstall_autorun: the buffer holds the value and its
      terminator at n, and the characters in [left, right) are squeezed out
      in place. */
  method SpliceOut(buf: array<char>, n: nat, left: nat, right: nat)
    requires n < buf.Length && buf[n] == '\0'
    requires left <= right <= n
    modifies buf
    ensures buf[..n + 1 - (right - left)] == old(buf[..left]) + old(buf[right..n + 1])
    ensures forall k :: n + 1 - (right - left) <= k < buf.Length ==> buf[k] == old(buf[k])
  {
    ghost var orig := buf[..];
    var w := 0;
    var i := 0;
    while i <= n
      invariant 0 <= i <= n + 1
      invariant w == if i <= left then i else if i <= right then left else left + (i - right)
      invariant forall k :: 0 <= k < w ==> buf[k] == orig[if k < left then k else k + (right - left)]
      invariant w <= i
      invariant forall k :: w <= k < buf.Length ==> buf[k] == orig[k]
    {
      if i < left || i >= right {
        buf[w] := buf[i];
        w := w + 1;
      }
      i := i + 1;
    }
    SqueezedIs(buf[..w], orig, n, left, right);
    assert orig[..left] == old(buf[..left]) && orig[right..n + 1] == old(buf[right..n + 1]);
  }

  /** A text whose k-th character is the original one, skipping [left,
      right), is the original without that span. */
  lemma SqueezedIs(b: seq<char>, orig: seq<char>, n: nat, left: nat, right: nat)
    requires left <= right <= n < |orig| && |b| == n + 1 - (right - left)
    requires forall k :: 0 <= k < |b| ==> b[k] == orig[if k < left then k else k + (right - left)]
    ensures b == orig[..left] + orig[right..n + 1]
  {
    forall k | 0 <= k < |b|
      ensures b[k] == (orig[..left] + orig[right..n + 1])[k]
    {
      if k >= left {
        assert b[k] == orig[k + (right - left)];
      }
    }
  }

  /** What is done with the AutoRun value. */
  datatype RegAction = Keep | Delete | Set(value: string)

  /** The value with Clink's entry cut out. */
  function Spliced(value: string): (r: string)
    requires Tag(value).Some?
  {
    var t := Tag(value).value;
    value[..LeftExtent(value, t, IsQuoted(value, t))] + value[RightExtent(value, t)..]
  }

  /** What uninstall_autorun stores: nothing changes without an entry; a
      value left with only separators and spaces is deleted; otherwise the
      rest from its first command is stored. */
  function UninstallAction(value: Option<string>): (r: RegAction)
  {
    if value.None? || Tag(value.value).None? then Keep
    else
      var v := Spliced(value.value);
      var rest := v[CmdStart(v, 0)..];
      if rest == [] then Delete else Set(rest)
  }

  /** A stored value never starts with a separator or a space. */
  lemma UninstallStoresCommand(value: Option<string>)
    requires UninstallAction(value).Set?
    ensures var r := UninstallAction(value).value;
            r != [] && !IsSpace(r[0]) && r[0] != '&'
  {
  }

  /** The registry value after an action. */
  function Apply(action: RegAction, value: Option<string>): (r: Option<string>)
  {
    match action
    case Keep => value
    case Delete => None
    case Set(v) => Some(v)
  }

  /** get_value: the value read into a fresh buffer with its terminator. */
  method StoreValue(v: string) returns (buf: array<char>)
    ensures fresh(buf) && buf.Length == |v| + 1
    ensures buf[..|v|] == v && buf[|v|] == '\0'
  {
    buf := new char[|v| + 1];
    var k := 0;
    while k < |v|
      invariant 0 <= k <= |v|
      invariant buf[..k] == v[..k]
    {
      buf[k] := v[k];
      k := k + 1;
    }
    buf[|v|] := '\0';
  }

  /** A buffer spliced from v and its terminator starts with the spliced
      value. */
  lemma SplicedPrefix(v: string, b: seq<char>, left: nat, right: nat)
    requires left <= right <= |v|
    requires |b| >= |v| + 1 - (right - left)
    requires b[..|v| + 1 - (right - left)] == v[..left] + (v + ['\0'])[right..|v| + 1]
    ensures b[..|v| - (right - left)] == v[..left] + v[right..]
  {
    assert (v + ['\0'])[right..|v| + 1] == v[right..] + ['\0'];
  }

  /** The in-place part of uninstall_autorun: get_value's copy of the
      value, with [left, right) squeezed out, up to its terminator. */
  method SpliceValue(v: string, left: nat, right: nat) returns (s: string)
    requires left <= right <= |v|
    ensures s == v[..left] + v[right..]
  {
    var n := |v|;
    var buf := StoreValue(v);
    ghost var before := buf[..];
    assert before == v + ['\0'];
    SpliceOut(buf, n, left, right);
    assert before[..left] == v[..left];
    SplicedPrefix(v, buf[..], left, right);
    s := buf[..n - (right - left)];
  }

  /** uninstall_autorun on value (None when there is no AutoRun value); the
      registry calls are not modelled. */
  method UninstallAutorun(value: Option<string>) returns (action: RegAction)
    requires value.Some? ==> IsCString(value.value)
    ensures action == UninstallAction(value)
  {
    if value.None? {
      return Keep;
    }
    var v := value.value;
    var found, left, right := FindClinkEntry(v);
    if !found {
      return Keep;
    }
    var s := SpliceValue(v, left, right);
    assert s == Spliced(v);
    var start := CmdStart(s, 0);
    if start == |s| {
      action := Delete;
    } else {
      action := Set(s[start..]);
    }
  }

  /** Clink's entry as install_autorun writes it. */
  function Entry(clinkPath: string, clinkArgs: string): (r: string)
  {
    "\"" + clinkPath + "\\clink.bat\" inject --autorun" + (if clinkArgs != [] then " " + clinkArgs else [])
  }

  /** The text install_autorun builds before get_cmd_start: the current
      value and `&`, then the entry, cut to the buffer's room (the current
      value's length plus 2048, terminator included). */
  function InstallText(current: Option<string>, clinkPath: string, clinkArgs: string): (r: string)
    ensures |r| < (if current.Some? then |current.value| else 0) + 2048
    ensures current.Some? && current.value != [] ==> current.value + "&" <= r
  {
    var kv := if current.Some? then current.value else [];
    var full := (if kv != [] then kv + "&" else []) + Entry(clinkPath, clinkArgs);
    full[..Min(|full|, |kv| + 2047)]
  }

  /** What install_autorun stores: it first uninstalls, then appends its
      entry to what is left; the stored text is a tail of the built text
      that starts at a command, not at a space or `&`. */
  function InstallValue(value: Option<string>, clinkPath: string, clinkArgs: string): (r: string)
    ensures r == [] || (!IsSpace(r[0]) && r[0] != '&')
    ensures var t := InstallText(Apply(UninstallAction(value), value), clinkPath, clinkArgs);
      |r| <= |t| && r == t[|t| - |r|..]
  {
    var text := InstallText(Apply(UninstallAction(value), value), clinkPath, clinkArgs);
    text[CmdStart(text, 0)..]
  }

  /** When it fits, the installed value is the remaining value, `&`, and the
      entry. */
  lemma InstallAppendsEntry(current: Option<string>, clinkPath: string, clinkArgs: string)
    requires current.Some? && current.value != []
    requires |clinkPath| + |clinkArgs| < 2000
    ensures InstallText(current, clinkPath, clinkArgs) == current.value + "&" + Entry(clinkPath, clinkArgs)
  {
  }

  /** An occurrence survives putting text in front. */
  lemma OccursAfterPrefix(a: string, b: string, needle: string, k: nat)
    requires OccursAt(b, needle, k)
    ensures OccursAt(a + b, needle, |a| + k)
  {
    assert (a + b)[|a| + k..|a| + k + |needle|] == b[k..k + |needle|];
  }

  /** An occurrence survives dropping text before it. */
  lemma OccursAfterDrop(s: string, needle: string, k: nat, j: nat)
    requires OccursAt(s, needle, k) && j <= k
    ensures OccursAt(s[j..], needle, k - j)
  {
    assert s[j..][k - j..k - j + |needle|] == s[k..k + |needle|];
  }

  /** The entry holds the needle `clink.bat" inject` after the quote and
      the path. */
  lemma EntryHoldsNeedle(clinkPath: string, clinkArgs: string)
    ensures OccursAt(Entry(clinkPath, clinkArgs), Needles[7], |clinkPath| + 2)
  {
    var e := Entry(clinkPath, clinkArgs);
    var tail := "clink.bat\" inject --autorun" + (if clinkArgs != [] then " " + clinkArgs else []);
    assert e == "\"" + clinkPath + "\\" + tail;
    OccursAfterPrefix("\"" + clinkPath + "\\", tail, Needles[7], 0);
  }

  /** With room to spare the built text is never cut. */
  lemma InstallTextFits(current: Option<string>, clinkPath: string, clinkArgs: string)
    requires |clinkPath| + |clinkArgs| < 2000
    ensures InstallText(current, clinkPath, clinkArgs) ==
      (if current.Some? && current.value != [] then current.value + "&" else []) + Entry(clinkPath, clinkArgs)
  {
  }

  /** Clink's entry behind any text is found again once get_cmd_start has
      skipped the separators in front. */
  lemma EntryFoundAfter(front: string, clinkPath: string, clinkArgs: string)
    ensures var text := front + Entry(clinkPath, clinkArgs);
      Tag(text[CmdStart(text, 0)..]).Some?
  {
    var e := Entry(clinkPath, clinkArgs);
    var text := front + e;
    EntryHoldsNeedle(clinkPath, clinkArgs);
    OccursAfterPrefix(front, e, Needles[7], |clinkPath| + 2);
    var start := CmdStart(text, 0);
    assert text[|front|] == '"';
    assert start <= |front|;
    OccursAfterDrop(text, Needles[7], |front| + |clinkPath| + 2, start);
    NeedlesNonEmpty();
    TagFromNone(text[start..], Needles, 0);
  }

  /** An installed entry that fits is found again by find_clink_entry. */
  lemma InstalledEntryIsFound(value: Option<string>, clinkPath: string, clinkArgs: string)
    requires |clinkPath| + |clinkArgs| < 2000
    ensures Tag(InstallValue(value, clinkPath, clinkArgs)).Some?
  {
    var cur := Apply(UninstallAction(value), value);
    InstallTextFits(cur, clinkPath, clinkArgs);
    EntryFoundAfter(if cur.Some? && cur.value != [] then cur.value + "&" else [], clinkPath, clinkArgs);
  }
}
