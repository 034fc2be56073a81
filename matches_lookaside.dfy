// Packed matchText records: pack_match lays a matchText, its type, append
// character, flags, display string and description end to end in one
// buffer; the lookaside table reads the extra fields back from the bytes
// that follow each match's NUL.
module MatchesLookaside {
  import opened Common

  const Nul: byte := 0
  const Tab: byte := 9
  const Lf: byte := 10
  const Cr: byte := 13
  const Space: byte := 32

  /** The ":LA:" mark that debug builds insert after the flags. */
  const Magic: seq<byte> := [58, 76, 65, 58]

  /** The bytes of a C string pointer: nothing for a null pointer. */
  function Text(s: Option<seq<byte>>): seq<byte>
  {
    if s.Some? then s.value else []
  }

  /** No byte of s is a NUL. */
  predicate NoNul(s: seq<byte>)
  {
    forall i :: 0 <= i < |s| ==> s[i] != Nul
  }

  /** A pointer that is null or points at a C string. */
  predicate IsCText(s: Option<seq<byte>>)
  {
    s.Some? ==> NoNul(s.value)
  }

  /** One character as append_string_into_buffer stores it. */
  function SanitisedByte(c: byte, allowTabs: bool): (d: byte)
    ensures d != Cr && d != Lf && (!allowTabs ==> d != Tab)
    ensures c != Cr && c != Lf && (allowTabs || c != Tab) ==> d == c
    ensures c == Cr || c == Lf || (!allowTabs && c == Tab) ==> d == Space
  {
    if c == Cr || c == Lf || (c == Tab && !allowTabs) then Space else c
  }

  function Sanitised(s: seq<byte>, allowTabs: bool): (t: seq<byte>)
    ensures |t| == |s|
    ensures forall i :: 0 <= i < |s| ==> t[i] == SanitisedByte(s[i], allowTabs)
  {
    seq(|s|, i requires 0 <= i < |s| => SanitisedByte(s[i], allowTabs))
  }

  lemma SanitisedIsCString(s: seq<byte>, allowTabs: bool)
    requires NoNul(s)
    ensures NoNul(Sanitised(s, allowTabs))
  {
  }

  /** strlen of the string at offset i: the distance to the next NUL, or
    * to the end when there is none. */
  function CLenFrom(a: seq<byte>, i: nat): (n: nat)
    requires i <= |a|
    ensures i + n <= |a| && (i + n < |a| ==> a[i + n] == Nul)
    decreases |a| - i
  {
    if i == |a| || a[i] == Nul then 0 else 1 + CLenFrom(a, i + 1)
  }

  /** The string at i whose first NUL is at k has strlen k - i. */
  lemma {:induction false} CLenFromOf(a: seq<byte>, i: nat, k: nat)
    requires i <= k < |a| && a[k] == Nul
    requires forall j :: i <= j < k ==> a[j] != Nul
    ensures CLenFrom(a, i) == k - i
    decreases k - i
  {
    if i < k {
      CLenFromOf(a, i + 1, k);
    }
  }

  // ---------------------------------------------------------------------
  // Sizes and the packed layout.

  /** calc_packed_size: three NULs, the type, append-char and flags bytes,
    * the three strings, and the debug mark. */
  function CalcPackedSize(matchText: Option<seq<byte>>, display: Option<seq<byte>>,
                          description: Option<seq<byte>>, debug: bool): (n: nat)
    ensures n >= 6
  {
    var size := 3 + 1 + 1 + 1 + |Text(matchText)|;
    var size := if debug then size + 4 else size;
    size + |Text(display)| + |Text(description)|
  }

  /** The bytes between the match's NUL and the display string. */
  function ExtraBytes(matchType: byte, appendChar: byte, flags: byte, debug: bool): (b: seq<byte>)
  {
    [matchType, appendChar, flags] + (if debug then Magic else [])
  }

  /** The record pack_match writes for a matchText without a filter entry. */
  function Packed(m: seq<byte>, matchType: byte, t: seq<byte>, u: seq<byte>,
                  appendChar: byte, flags: byte, debug: bool): (b: seq<byte>)
  {
    Sanitised(m, false) + [Nul] +
    (ExtraBytes(matchType, appendChar, flags, debug) + (Sanitised(t, false) + [Nul] + (Sanitised(u, false) + [Nul])))
  }

  /** The record fills exactly the size calc_packed_size reserves. */
  lemma PackedSize(matchText: Option<seq<byte>>, matchType: byte, display: Option<seq<byte>>,
                   description: Option<seq<byte>>, appendChar: byte, flags: byte, debug: bool)
    ensures |Packed(Text(matchText), matchType, Text(display), Text(description), appendChar, flags, debug)|
            == CalcPackedSize(matchText, display, description, debug)
  {
  }

  // ---------------------------------------------------------------------
  // Reading a record back.

  /** The extra fields add() records for a matchText. */
  datatype MatchExtra = MatchExtra(matchType: byte, appendChar: byte, flags: byte,
                                   displayOffset: nat, descriptionOffset: nat)

  /** Where the display string starts: past the match, its NUL, the three
    * extra bytes and the debug mark. */
  function DisplayStart(b: seq<byte>, debug: bool): (d: nat)
  {
    CLenFrom(b, 0) + 1 + 3 + (if debug then 4 else 0)
  }

  /** The memory at a match pointer holds what add() reads: a NUL-ended
    * match, three bytes after it and a NUL-ended display string. */
  predicate WellPacked(b: seq<byte>, debug: bool)
  {
    DisplayStart(b, debug) <= |b| && DisplayStart(b, debug) + CLenFrom(b, DisplayStart(b, debug)) < |b|
  }

  /** The cast to unsigned short. */
  function U16(n: nat): (r: nat)
    ensures r < 0x1_0000 && (n < 0x1_0000 ==> r == n)
  {
    if n < 0x1_0000 then n else n % 0x1_0000
  }

  /** add(): the type, append character and flags from just after the
    * match's NUL, and the two offsets, each cut to 16 bits. */
  function ReadExtra(b: seq<byte>, debug: bool): (e: MatchExtra)
    requires WellPacked(b, debug)
    ensures e.displayOffset < 0x1_0000 && e.descriptionOffset < 0x1_0000
  {
    var len := CLenFrom(b, 0) + 1;
    var d := DisplayStart(b, debug);
    MatchExtra(b[len], b[len + 1], b[len + 2], U16(d), U16(d + CLenFrom(b, d) + 1))
  }

  /** The C string at offset k of a record. */
  function StringAt(b: seq<byte>, k: nat): (s: seq<byte>)
    requires k <= |b|
  {
    b[k..k + CLenFrom(b, k)]
  }

  /** The C string at k of a buffer holding t and a NUL there is t. */
  lemma StringAtSplit(b: seq<byte>, k: nat, t: seq<byte>)
    requires k + |t| < |b| && b[k..k + |t|] == t && b[k + |t|] == Nul && NoNul(t)
    ensures CLenFrom(b, k) == |t| && StringAt(b, k) == t
  {
    forall j | k <= j < k + |t|
      ensures b[j] != Nul
    {
      assert b[j] == b[k..k + |t|][j - k];
    }
    CLenFromOf(b, k, k + |t|);
  }

  /** strlen from offset k + j of b is strlen from j of the tail at k. */
  lemma {:induction false} CLenFromShift(b: seq<byte>, k: nat, j: nat)
    requires k + j <= |b|
    ensures CLenFrom(b, k + j) == CLenFrom(b[k..], j)
    decreases |b| - k - j
  {
    if k + j < |b| {
      assert b[k..][j] == b[k + j];
      if b[k + j] != Nul {
        CLenFromShift(b, k, j + 1);
      }
    }
  }

  /** A buffer starting with t and a NUL has t as its first string. */
  lemma FrontString(c: seq<byte>, t: seq<byte>, rest: seq<byte>)
    requires c == t + [Nul] + rest && NoNul(t)
    ensures CLenFrom(c, 0) == |t| && c[..|t|] == t
  {
    assert c[0..|t|] == t && c[|t|] == Nul;
    StringAtSplit(c, 0, t);
  }

  /** The string at k of b, when the tail at k starts with t and a NUL. */
  lemma StringInTail(b: seq<byte>, k: nat, t: seq<byte>, rest: seq<byte>)
    requires k <= |b| && b[k..] == t + [Nul] + rest && NoNul(t)
    ensures CLenFrom(b, k) == |t| && StringAt(b, k) == t
  {
    FrontString(b[k..], t, rest);
    CLenFromShift(b, k, 0);
    assert b[k..k + |t|] == b[k..][..|t|];
  }

  /** In a record laid out from a match m, extra bytes x, a display t and
    * a description u, strlen finds the match and the extra bytes follow
    * its NUL. */
  lemma LayoutMatchPart(b: seq<byte>, m: seq<byte>, x: seq<byte>, r2: seq<byte>)
    requires b == m + [Nul] + (x + r2) && NoNul(m) && |x| >= 3
    ensures CLenFrom(b, 0) == |m|
    ensures b[|m| + 1] == x[0] && b[|m| + 2] == x[1] && b[|m| + 3] == x[2]
    ensures b[|m| + 1 + |x|..] == r2
  {
    FrontString(b, m, x + r2);
    assert b[|m| + 1..] == x + r2;
    assert b[|m| + 1 + |x|..] == b[|m| + 1..][|x|..];
  }

  /** The display and description strings at their offsets. */
  lemma LayoutStringsPart(b: seq<byte>, d: nat, t: seq<byte>, u: seq<byte>)
    requires d <= |b| && b[d..] == t + [Nul] + (u + [Nul]) && NoNul(t) && NoNul(u)
    ensures CLenFrom(b, d) == |t| && StringAt(b, d) == t
    ensures StringAt(b, d + |t| + 1) == u
  {
    StringInTail(b, d, t, u + [Nul]);
    var e := d + |t| + 1;
    assert b[e..] == u + [Nul] + [] by {
      assert b[e..] == b[d..][|t| + 1..];
    }
    StringInTail(b, e, u, []);
  }

  /** A record laid out from plain pieces reads back as those pieces. */
  lemma LayoutReadsBack(b: seq<byte>, m: seq<byte>, x: seq<byte>, t: seq<byte>, u: seq<byte>, debug: bool)
    requires b == m + [Nul] + (x + (t + [Nul] + (u + [Nul])))
    requires NoNul(m) && NoNul(t) && NoNul(u) && |b| < 0x1_0000
    requires |x| == 3 + (if debug then 4 else 0)
    ensures WellPacked(b, debug)
    ensures ReadExtra(b, debug) == MatchExtra(x[0], x[1], x[2], |m| + 1 + |x|, |m| + 1 + |x| + |t| + 1)
    ensures StringAt(b, |m| + 1 + |x|) == t && StringAt(b, |m| + 1 + |x| + |t| + 1) == u
  {
    LayoutMatchPart(b, m, x, t + [Nul] + (u + [Nul]));
    LayoutStringsPart(b, |m| + 1 + |x|, t, u);
    ReadExtraAt(b, debug, |m|, |t|);
  }

  /** What add() reads from a record whose match has length n and whose
    * display has length tl. */
  lemma ReadExtraAt(b: seq<byte>, debug: bool, n: nat, tl: nat)
    requires CLenFrom(b, 0) == n && DisplayStart(b, debug) + tl < |b| < 0x1_0000
    requires CLenFrom(b, DisplayStart(b, debug)) == tl
    ensures WellPacked(b, debug)
    ensures ReadExtra(b, debug) == MatchExtra(b[n + 1], b[n + 2], b[n + 3], DisplayStart(b, debug),
                                              DisplayStart(b, debug) + tl + 1)
  {
  }

  /** add() reads back the type, append character and flags pack_match
    * wrote, and its offsets point at the packed display and description
    * strings. */
  lemma PackedReadsBack(m: seq<byte>, matchType: byte, t: seq<byte>, u: seq<byte>,
                        appendChar: byte, flags: byte, debug: bool, b: seq<byte>)
    requires NoNul(m) && NoNul(t) && NoNul(u)
    requires b == Packed(m, matchType, t, u, appendChar, flags, debug) && |b| < 0x1_0000
    ensures WellPacked(b, debug)
    ensures ReadExtra(b, debug) == MatchExtra(matchType, appendChar, flags, DisplayOffset(m, debug),
                                              DisplayOffset(m, debug) + |t| + 1)
    ensures StringAt(b, DisplayOffset(m, debug)) == Sanitised(t, false)
    ensures StringAt(b, DisplayOffset(m, debug) + |t| + 1) == Sanitised(u, false)
  {
    SanitisedIsCString(m, false);
    SanitisedIsCString(t, false);
    SanitisedIsCString(u, false);
    var x := ExtraBytes(matchType, appendChar, flags, debug);
    var sm, st, su := Sanitised(m, false), Sanitised(t, false), Sanitised(u, false);
    assert |x| == 3 + (if debug then 4 else 0) && x[0] == matchType && x[1] == appendChar && x[2] == flags;
    var d := DisplayOffset(m, debug);
    assert d == |sm| + 1 + |x| && d + |t| + 1 == |sm| + 1 + |x| + |st| + 1;
    LayoutReadsBack(b, sm, x, st, su, debug);
  }

  /** Where pack_match puts the display string. */
  function DisplayOffset(m: seq<byte>, debug: bool): nat
  {
    |m| + 1 + 3 + (if debug then 4 else 0)
  }

  // ---------------------------------------------------------------------
  // Writing a record into a buffer.

  /** append_string_into_buffer: copies the string (nothing for a null
    * pointer) with CR, LF and, unless allowed, tab turned into spaces,
    * then a NUL; the string starts at pos and the new write position is
    * returned. */
  method AppendStringIntoBuffer(buffer: array<byte>, pos: nat, s: Option<seq<byte>>, allowTabs: bool)
    returns (next: nat)
    requires pos + |Text(s)| + 1 <= buffer.Length
    modifies buffer
    ensures next == pos + |Text(s)| + 1
    ensures buffer[..next] == old(buffer[..pos]) + (Sanitised(Text(s), allowTabs) + [Nul])
    ensures forall k :: next <= k < buffer.Length ==> buffer[k] == old(buffer[k])
  {
    var text := Text(s);
    ghost var clean := Sanitised(text, allowTabs);
    var i := 0;
    while i < |text|
      invariant 0 <= i <= |text|
      invariant buffer[..pos + i] == old(buffer[..pos]) + clean[..i]
      invariant forall k :: pos + i <= k < buffer.Length ==> buffer[k] == old(buffer[k])
    {
      buffer[pos + i] := SanitisedByte(text[i], allowTabs);
      assert clean[..i + 1] == clean[..i] + [clean[i]];
      i := i + 1;
    }
    buffer[pos + i] := Nul;
    next := pos + i + 1;
    assert clean[..i] == clean;
  }

  /** Stores the bytes at pos and returns the position after them. */
  method PutBytes(buffer: array<byte>, pos: nat, bytes: seq<byte>) returns (next: nat)
    requires pos + |bytes| <= buffer.Length
    modifies buffer
    ensures next == pos + |bytes|
    ensures buffer[..next] == old(buffer[..pos]) + bytes
    ensures forall k :: next <= k < buffer.Length ==> buffer[k] == old(buffer[k])
  {
    var i := 0;
    while i < |bytes|
      invariant 0 <= i <= |bytes|
      invariant buffer[..pos + i] == old(buffer[..pos]) + bytes[..i]
      invariant forall k :: pos + i <= k < buffer.Length ==> buffer[k] == old(buffer[k])
    {
      buffer[pos + i] := bytes[i];
      assert bytes[..i + 1] == bytes[..i] + [bytes[i]];
      i := i + 1;
    }
    next := pos + i;
  }

  /** The failures pack_match reports: an empty match, or an empty display,
    * unless the record is for the longest common prefix. */
  predicate PackRefused(matchText: Option<seq<byte>>, display: Option<seq<byte>>, lcd: bool)
  {
    !lcd && ((matchText.Some? && |matchText.value| == 0) || (display.Some? && |display.value| == 0))
  }

  /** pack_match for a match without a filter entry: on success the buffer
    * begins with the packed record, which fills the size calc_packed_size
    * reserves; an empty match is refused before anything is written, an
    * empty display after the match's own bytes. */
  method PackMatch(buffer: array<byte>, matchText: Option<seq<byte>>, matchType: byte,
                   display: Option<seq<byte>>, description: Option<seq<byte>>,
                   appendChar: byte, flags: byte, lcd: bool, debug: bool) returns (ok: bool)
    requires CalcPackedSize(matchText, display, description, debug) <= buffer.Length
    modifies buffer
    ensures ok <==> !PackRefused(matchText, display, lcd)
    ensures ok ==> buffer[..CalcPackedSize(matchText, display, description, debug)]
                   == Packed(Text(matchText), matchType, Text(display), Text(description), appendChar, flags, debug)
    ensures ok ==> forall k :: CalcPackedSize(matchText, display, description, debug) <= k < buffer.Length
                              ==> buffer[k] == old(buffer[k])
    ensures !ok && matchText.Some? && |matchText.value| == 0 ==> buffer[..] == old(buffer[..])
    ensures !ok ==> forall k :: |Text(matchText)| + 1 <= k < buffer.Length ==> buffer[k] == old(buffer[k])
  {
    if matchText.Some? && |matchText.value| == 0 && !lcd {
      return false;
    }
    var p1 := AppendStringIntoBuffer(buffer, 0, matchText, false);
    if display.Some? && |display.value| == 0 && !lcd {
      return false;
    }
    ghost var m := Sanitised(Text(matchText), false) + [Nul];
    assert buffer[..p1] == m;
    var end := PackTail(buffer, p1, matchType, display, description, appendChar, flags, debug);
    assert end == CalcPackedSize(matchText, display, description, debug);
    assert buffer[..end] == Packed(Text(matchText), matchType, Text(display), Text(description), appendChar, flags, debug);
    ok := true;
  }

  /** The part of pack_match after the match: the extra bytes, then the
    * display and the description, each ended by a NUL. */
  method PackTail(buffer: array<byte>, pos: nat, matchType: byte,
                  display: Option<seq<byte>>, description: Option<seq<byte>>,
                  appendChar: byte, flags: byte, debug: bool) returns (end: nat)
    requires pos + 3 + (if debug then 4 else 0) + |Text(display)| + |Text(description)| + 2 <= buffer.Length
    modifies buffer
    ensures end == pos + 3 + (if debug then 4 else 0) + |Text(display)| + |Text(description)| + 2
    ensures buffer[..end] == old(buffer[..pos]) +
      (ExtraBytes(matchType, appendChar, flags, debug) +
       (Sanitised(Text(display), false) + [Nul] + (Sanitised(Text(description), false) + [Nul])))
    ensures forall k :: end <= k < buffer.Length ==> buffer[k] == old(buffer[k])
  {
    ghost var before := buffer[..pos];
    var x := ExtraBytes(matchType, appendChar, flags, debug);
    var p2 := PutBytes(buffer, pos, x);
    ghost var d := Sanitised(Text(display), false) + [Nul];
    var p3 := AppendStringIntoBuffer(buffer, p2, display, false);
    ghost var e := Sanitised(Text(description), false) + [Nul];
    end := AppendStringIntoBuffer(buffer, p3, description, false);
    assert buffer[..end] == before + x + d + e;
    AppendAssoc(before + x, d, e);
    AppendAssoc(before, x, d + e);
  }

  // ---------------------------------------------------------------------
  // The lookaside table.

  /** A match pointer: its address, which keys the table, and the packed
    * memory it points at. */
  datatype MatchPointer = MatchPointer(address: nat, memory: seq<byte>)

  /** Every non-null pointer after the longest-common-prefix entry points
    * at a well-formed record. */
  predicate PointersPacked(matches: seq<Option<MatchPointer>>, debug: bool)
  {
    forall k :: 1 <= k < |matches| ==> matches[k].Some? ==> WellPacked(matches[k].value.memory, debug)
  }

  /** std::map::emplace: a key already present keeps its entry. */
  function Emplace(entries: map<nat, MatchExtra>, p: MatchPointer, debug: bool): (r: map<nat, MatchExtra>)
    requires WellPacked(p.memory, debug)
  {
    if p.address in entries then entries else entries[p.address := ReadExtra(p.memory, debug)]
  }

  /** The table after adding the pointers of ms up to the first null. */
  function Emplaced(entries: map<nat, MatchExtra>, ms: seq<Option<MatchPointer>>, debug: bool): (r: map<nat, MatchExtra>)
    requires forall k :: 0 <= k < |ms| ==> ms[k].Some? ==> WellPacked(ms[k].value.memory, debug)
    decreases |ms|
  {
    if |ms| == 0 || ms[0].None? then entries
    else Emplaced(Emplace(entries, ms[0].value, debug), ms[1..], debug)
  }

  /** Looking a pointer up right after adding it finds its record, unless
    * the address was already there. */
  lemma EmplaceThenFind(entries: map<nat, MatchExtra>, p: MatchPointer, debug: bool, key: nat)
    requires WellPacked(p.memory, debug)
    ensures var r := Emplace(entries, p, debug);
            key in r <==> key in entries || key == p.address
    ensures var r := Emplace(entries, p, debug);
            key in r ==> r[key] == if key in entries then entries[key] else ReadExtra(p.memory, debug)
  {
  }

  /** Entries already in the table survive any run of additions. */
  lemma {:induction false} EmplacedKeeps(entries: map<nat, MatchExtra>, ms: seq<Option<MatchPointer>>,
                                         debug: bool, key: nat)
    requires forall k :: 0 <= k < |ms| ==> ms[k].Some? ==> WellPacked(ms[k].value.memory, debug)
    requires key in entries
    ensures key in Emplaced(entries, ms, debug) && Emplaced(entries, ms, debug)[key] == entries[key]
    decreases |ms|
  {
    if |ms| == 0 || ms[0].None? {
    } else {
      EmplacedKeeps(Emplace(entries, ms[0].value, debug), ms[1..], debug, key);
    }
  }

  /** The match at j, with no null before it, is found with the record
    * of its first occurrence. */
  lemma {:induction false} EmplacedFinds(entries: map<nat, MatchExtra>, ms: seq<Option<MatchPointer>>,
                                         debug: bool, j: nat)
    requires forall k :: 0 <= k < |ms| ==> ms[k].Some? ==> WellPacked(ms[k].value.memory, debug)
    requires j < |ms| && forall k :: 0 <= k <= j ==> ms[k].Some?
    requires ms[j].value.address !in entries
    requires forall k :: 0 <= k < j ==> ms[k].value.address != ms[j].value.address
    ensures ms[j].value.address in Emplaced(entries, ms, debug)
    ensures Emplaced(entries, ms, debug)[ms[j].value.address] == ReadExtra(ms[j].value.memory, debug)
    decreases j
  {
    var e1 := Emplace(entries, ms[0].value, debug);
    if j == 0 {
      EmplacedKeeps(e1, ms[1..], debug, ms[0].value.address);
    } else {
      assert ms[1..][j - 1] == ms[j];
      EmplacedFinds(e1, ms[1..], debug, j - 1);
    }
  }

  /** Every key in the table is the address of one of the pointers added. */
  lemma {:induction false} EmplacedKeys(entries: map<nat, MatchExtra>, ms: seq<Option<MatchPointer>>,
                                        debug: bool, key: nat)
    requires forall k :: 0 <= k < |ms| ==> ms[k].Some? ==> WellPacked(ms[k].value.memory, debug)
    requires key in Emplaced(entries, ms, debug) && key !in entries
    ensures exists k :: 0 <= k < |ms| && ms[k].Some? && ms[k].value.address == key
    decreases |ms|
  {
    if |ms| == 0 || ms[0].None? {
    } else {
      var e1 := Emplace(entries, ms[0].value, debug);
      if key == ms[0].value.address {
      } else {
        EmplacedKeys(e1, ms[1..], debug, key);
        var k :| 0 <= k < |ms[1..]| && ms[1..][k].Some? && ms[1..][k].value.address == key;
        assert ms[k + 1] == ms[1..][k];
      }
    }
  }

  /** The table of extra match fields for one readline match list. */
  class Lookaside {
    const debug: bool
    var entries: map<nat, MatchExtra>

    /** Adds every match after the longest-common-prefix entry, stopping at
      * the list's terminating null. */
    constructor(matches: seq<Option<MatchPointer>>, debug: bool)
      requires |matches| >= 2 && matches[|matches| - 1].None?
      requires PointersPacked(matches, debug)
      ensures this.debug == debug
      ensures entries == Emplaced(map[], matches[1..], debug)
    {
      this.debug := debug;
      entries := map[];
      new;
      if matches[1].Some? {
        var i := 1;
        var ok := true;
        while ok
          invariant 1 <= i < |matches| && this.debug == debug
          invariant !ok ==> matches[i].None?
          invariant Emplaced(entries, matches[i..], debug) == Emplaced(map[], matches[1..], debug)
          decreases |matches| - i, ok
        {
          ok := Add(matches[i], true);
          if ok {
            assert matches[i..][1..] == matches[i + 1..];
            i := i + 1;
          }
        }
      }
    }

    /** add(): a null pointer or a failed allocation adds nothing and
      * reports false; otherwise the record's extra fields are stored under
      * the match's address unless it is there already. */
    method Add(p: Option<MatchPointer>, allocOk: bool) returns (ok: bool)
      requires p.Some? ==> WellPacked(p.value.memory, debug)
      modifies this
      ensures ok <==> p.Some? && allocOk
      ensures entries == if ok then Emplace(old(entries), p.value, debug) else old(entries)
    {
      if p.None? || !allocOk {
        return false;
      }
      entries := Emplace(entries, p.value, debug);
      ok := true;
    }

    /** find(): the extra fields stored for a match pointer, if any. */
    function Find(address: nat): (r: Option<MatchExtra>)
      reads this
      ensures r.Some? <==> address in entries
      ensures r.Some? ==> r.value == entries[address]
    {
      if address in entries then Some(entries[address]) else None
    }
  }
}
