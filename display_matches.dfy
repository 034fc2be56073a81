// The temporary line buffer the match display builds each row in, the
// padding after a match, and the exact-match test used to find where a
// match sits inside its display string.
module DisplayMatches {
  import opened Common

  /** The capacity grow_tmpbuf starts doubling from. */
  const InitialCapacity: nat := 30

  /** The width of the run of spaces pad_filename appends in one go. */
  const SpacesChunk: nat := 48

  /** The capacity grow_tmpbuf settles on: start doubled until it holds
    * need bytes. */
  function GrowSize(start: nat, need: nat): (r: nat)
    requires start > 0
    ensures r >= need && r >= start
    ensures r > start ==> r < 2 * need
    decreases need - start
  {
    if start >= need then start else GrowSize(2 * start, need)
  }

  /** The number of spaces pad_filename appends: exact padding when the
    * entry is selected or the width is negative, at least one space
    * otherwise. */
  function PadSpaces(len: int, padToWidth: int, selected: int): (n: nat)
  {
    var exact := selected != 0 || padToWidth < 0;
    var width := if padToWidth < 0 then -padToWidth else padToWidth;
    if width <= len then (if exact then 0 else 1) else width - len
  }

  /** Padding reaches the requested width exactly when the text is
    * shorter; otherwise only the inexact case adds a separating space. */
  lemma PadReachesWidth(len: int, padToWidth: int, selected: int)
    ensures var width := if padToWidth < 0 then -padToWidth else padToWidth;
            len < width ==> len + PadSpaces(len, padToWidth, selected) == width
    ensures var width := if padToWidth < 0 then -padToWidth else padToWidth;
            width <= len ==> (PadSpaces(len, padToWidth, selected) == 1 <==> selected == 0 && padToWidth >= 0)
    ensures selected == 0 && padToWidth >= 0 ==> PadSpaces(len, padToWidth, selected) >= 1
  {
  }

  function Spaces(n: nat): (s: seq<char>)
    ensures |s| == n && forall i :: 0 <= i < n ==> s[i] == ' '
  {
    seq(n, i => ' ')
  }

  /** The text the display buffer grows by on a pad_filename call. */
  function Padding(len: int, padToWidth: int, selected: int, colours: bool, defaultColour: seq<char>): seq<char>
  {
    (if colours && selected == 0 then defaultColour else []) +
    Spaces(PadSpaces(len, padToWidth, selected)) +
    (if selected > 0 then defaultColour else [])
  }

  /** exact_match's meaning: the match string is exactly the first len
    * characters of the text. */
  predicate ExactMatchSpec(matchText: seq<char>, text: seq<char>, len: nat)
    requires '\0' in matchText && len <= |text|
  {
    CStr(matchText) == text[..len]
  }

  /** exact_match: compares len characters, then requires the match to end
    * there. */
  method ExactMatch(matchText: seq<char>, text: seq<char>, len: nat) returns (r: bool)
    requires '\0' in matchText && len <= |text| && IsCString(text[..len])
    ensures r <==> ExactMatchSpec(matchText, text, len)
  {
    var n := StrLen(matchText);
    var i := 0;
    while i < len
      invariant 0 <= i <= len && i <= n
      invariant matchText[..i] == text[..i]
    {
      if matchText[i] != text[i] {
        assert text[..len][i] == text[i];
        return false;
      }
      assert text[..len][i] == text[i];
      assert matchText[..i + 1] == text[..i + 1];
      i := i + 1;
    }
    r := matchText[i] == '\0';
    if r {
      CStrOfTerminated(matchText, i);
    } else {
      assert CStr(matchText)[..i] == text[..len];
    }
  }

  /** calc_prefix_or_suffix's prefix test as written: it passes the whole
    * segment's length, so it holds only when the segment is the match. */
  function PrefixBitAsWritten(matchText: seq<char>, segment: seq<char>): bool
    requires '\0' in matchText
  {
    ExactMatchSpec(matchText, segment, |segment|)
  }

  /** The prefix test with the match's own length, as the comment at the
    * call describes. */
  function PrefixBit(matchText: seq<char>, segment: seq<char>): bool
    requires '\0' in matchText && StrLen(matchText) <= |segment|
  {
    ExactMatchSpec(matchText, segment, StrLen(matchText))
  }

  /** A segment consisting of "match" followed by " symbol" does not
    * count as starting with "match". */
  lemma PrefixBitAsWrittenMissesPrefix()
    ensures !PrefixBitAsWritten("match\0", "match symbol")
  {
    CStrOfTerminated("match\0", 5);
    assert "match symbol"[..12][5] == ' ';
  }

  /** The corrected test holds exactly when the segment starts with the
    * match. */
  lemma PrefixBitIsPrefix(matchText: seq<char>, segment: seq<char>)
    requires '\0' in matchText && StrLen(matchText) <= |segment|
    ensures PrefixBit(matchText, segment) <==> CStr(matchText) <= segment
  {
  }

  /** The suffix test, which passes the match's length, holds exactly when
    * the segment ends with the match. */
  lemma SuffixBitIsSuffix(matchText: seq<char>, segment: seq<char>)
    requires '\0' in matchText && StrLen(matchText) <= |segment|
    ensures var k := |segment| - StrLen(matchText);
            ExactMatchSpec(matchText, segment[k..], StrLen(matchText)) <==>
            segment == segment[..k] + CStr(matchText)
  {
    var k := |segment| - StrLen(matchText);
    assert segment[k..][..StrLen(matchText)] == segment[k..];
    assert segment == segment[..k] + segment[k..];
  }

  /** The growable buffer behind the tmpbuf functions: its bytes, the
    * length in use and the rollback mark. */
  class TmpBuf {
    var data: array<char>
    var length: nat
    var rollback: nat

    /** The buffer always has room for a NUL after its contents, once it
      * has been allocated at all. */
    ghost predicate Valid()
      reads this
    {
      rollback <= length && (length < data.Length || (length == 0 && data.Length == 0))
    }

    function Contents(): seq<char>
      reads this, data
      requires Valid()
    {
      data[..length]
    }

    constructor()
      ensures Valid() && Contents() == [] && rollback == 0 && data.Length == 0
    {
      data := new char[0];
      length := 0;
      rollback := 0;
    }

    /** mark_tmpbuf: rolling back later returns to the current contents. */
    method Mark()
      requires Valid()
      modifies this
      ensures Valid() && data == old(data) && length == old(length) && rollback == length
    {
      rollback := length;
    }

    /** reset_tmpbuf: empty, with the mark at the start; the allocation is
      * kept. */
    method Reset()
      requires Valid()
      modifies this
      ensures Valid() && data == old(data) && length == 0 && rollback == 0 && Contents() == []
    {
      length := 0;
      rollback := length;
    }

    /** rollback_tmpbuf: the contents go back to what they were at the
      * mark. */
    method Rollback()
      requires Valid()
      modifies this
      ensures Valid() && data == old(data) && rollback == old(rollback)
      ensures Contents() == old(Contents()[..rollback])
    {
      length := rollback;
    }

    /** grow_tmpbuf: makes room for growby more bytes and a NUL, doubling
      * the capacity from 30 when it has to grow. */
    method Grow(growby: nat)
      requires Valid()
      modifies this
      ensures Valid() && length == old(length) && rollback == old(rollback)
      ensures Contents() == old(Contents())
      ensures length + growby + 1 <= data.Length
      ensures var need := old(length) + growby + 1;
              data.Length == if need <= old(data.Length) then old(data.Length)
                             else GrowSize(if old(data.Length) == 0 then InitialCapacity else old(data.Length), need)
      ensures data == old(data) || fresh(data)
    {
      var needsize := length + growby + 1;
      if needsize <= data.Length {
        return;
      }
      var oldsize := data.Length;
      if oldsize == 0 {
        oldsize := InitialCapacity;
      }
      var newsize := oldsize;
      while newsize < needsize
        invariant newsize > 0 && GrowSize(newsize, needsize) == GrowSize(oldsize, needsize)
        decreases needsize - newsize
      {
        newsize := newsize * 2;
      }
      var newbuf := new char[newsize];
      var i := 0;
      while i < data.Length
        invariant 0 <= i <= data.Length && data.Length < newsize
        invariant newbuf[..i] == data[..i]
        modifies newbuf
      {
        newbuf[i] := data[i];
        i := i + 1;
      }
      assert newbuf[..length] == data[..length] by {
        assert newbuf[..length] == newbuf[..i][..length];
        assert data[..i] == data[..];
      }
      data := newbuf;
    }

    /** append_tmpbuf_char. */
    method AppendChar(c: char)
      requires Valid()
      modifies this, data
      ensures data == old(data) || fresh(data)
      ensures Valid() && rollback == old(rollback)
      ensures Contents() == old(Contents()) + [c]
    {
      Grow(1);
      data[length] := c;
      length := length + 1;
    }

    /** append_tmpbuf_string: len characters of s, or all of the C string
      * s when len is negative. */
    method AppendString(s: seq<char>, len: int)
      requires Valid()
      requires len < 0 ==> '\0' in s
      requires len >= 0 ==> len <= |s|
      modifies this, data
      ensures data == old(data) || fresh(data)
      ensures Valid() && rollback == old(rollback)
      ensures Contents() == old(Contents()) + (if len < 0 then CStr(s) else s[..len])
    {
      var n: nat := if len < 0 then StrLen(s) else len;
      Grow(n);
      CopyInto(data, length, s[..n]);
      length := length + n;
    }

    /** get_tmpbuf_rollback: NUL-terminates the buffer and returns the text
      * since the mark, the contents and their length unchanged. */
    method GetRollback() returns (r: seq<char>)
      requires Valid()
      modifies this, data
      ensures data == old(data) || fresh(data)
      ensures Valid() && rollback == old(rollback) && Contents() == old(Contents())
      ensures r == Contents()[rollback..] + ['\0']
    {
      Grow(1);
      data[length] := '\0';
      r := data[rollback..length + 1];
      assert data[rollback..length + 1] == data[..length][rollback..] + [data[length]];
    }

    /** pad_filename: the default colour first when colours are on and the
      * entry is not selected, then the spaces in runs of at most 48, then
      * the default colour after a selected entry. */
    method PadFilename(len: int, padToWidth: int, selected: int, colours: bool, defaultColour: seq<char>)
      requires Valid()
      modifies this, data
      ensures data == old(data) || fresh(data)
      ensures Valid() && rollback == old(rollback)
      ensures Contents() == old(Contents()) + Padding(len, padToWidth, selected, colours, defaultColour)
    {
      if colours && selected == 0 {
        AppendString(defaultColour, |defaultColour|);
      }
      AppendSpaces(PadSpaces(len, padToWidth, selected));
      if selected > 0 {
        AppendString(defaultColour, |defaultColour|);
      }
    }

    /** pad_filename's loop: num spaces, appended from the 48-space run a
      * chunk at a time. */
    method AppendSpaces(num: nat)
      requires Valid()
      modifies this, data
      ensures data == old(data) || fresh(data)
      ensures Valid() && rollback == old(rollback)
      ensures Contents() == old(Contents()) + Spaces(num)
    {
      var numSpaces: int := num;
      while numSpaces > 0
        invariant Valid() && rollback == old(rollback) && (data == old(data) || fresh(data))
        invariant numSpaces <= num
        invariant Contents() == old(Contents()) + Spaces(num - if numSpaces > 0 then numSpaces else 0)
        decreases numSpaces
      {
        var chunk := if numSpaces < SpacesChunk then numSpaces else SpacesChunk;
        ghost var done := num - numSpaces;
        AppendString(Spaces(SpacesChunk), chunk);
        assert Spaces(done) + Spaces(SpacesChunk)[..chunk] == Spaces(done + chunk);
        numSpaces := numSpaces - SpacesChunk;
      }
    }
  }

  /** The memcpy behind the appends: s stored at at, nothing after it
    * touched. */
  method CopyInto(a: array<char>, at: nat, s: seq<char>)
    requires at + |s| <= a.Length
    modifies a
    ensures a[..at + |s|] == old(a[..at]) + s
  {
    var i := 0;
    while i < |s|
      invariant 0 <= i <= |s|
      invariant a[..at + i] == old(a[..at]) + s[..i]
    {
      a[at + i] := s[i];
      assert s[..i + 1] == s[..i] + [s[i]];
      assert a[..at + i + 1] == a[..at + i] + [s[i]];
      i := i + 1;
    }
    assert s[..i] == s;
  }
}
