// The bounded, optionally growable string buffer str_impl and the
// char_count helpers of str.h.
module Str {
  import opened Common

  /** m_size and m_length are 15-bit fields: a buffer describes at most 0x7fff characters. */
  const SizeLimit: nat := 0x8000

  /** reserve rounds a growing request up to a multiple of 64. */
  function RoundUp64(n: nat): (r: nat)
    ensures r % 64 == 0 && n <= r < n + 64
  {
    ((n + 63) / 64) * 64
  }

  /** What a 15-bit m_size keeps of reserve's rounded request. */
  function StoredSize(n: nat): (r: nat)
    ensures r < SizeLimit
    ensures RoundUp64(n) < SizeLimit ==> r == RoundUp64(n)
  {
    RoundUp64(n) % SizeLimit
  }

  /**
   * The buffer size after reserve(need) on a buffer of `size`: kept when
   * it suffices or the buffer is fixed, otherwise rounded up to a multiple
   * of 64, unless the rounded size is too large for the 15-bit field.
   */
  function Grown(size: nat, growable: bool, need: nat): (r: nat)
    ensures size <= r
    ensures r == size || r == RoundUp64(need)
  {
    if need <= size || !growable || RoundUp64(need) >= SizeLimit then size else RoundUp64(need)
  }

  lemma RoundUpMonotonic(a: nat, b: nat)
    requires a <= b
    ensures RoundUp64(a) <= RoundUp64(b)
  {
    assert (a + 63) / 64 <= (b + 63) / 64;
  }

  /** What reserve reports, and the size its 15-bit m_size field then holds. */
  datatype Reserved = Reserved(ok: bool, storedSize: nat)

  /**
   * reserve(n) as written, on a buffer whose m_size holds size: success at
   * once when n fits, failure on a fixed buffer, and otherwise success with
   * the rounded request stored in m_size without any check that it fits.
   */
  function ReserveAsWritten(size: nat, growable: bool, n: nat): (r: Reserved)
    requires size < SizeLimit
    ensures r.storedSize < SizeLimit
    ensures r.ok <==> n <= size || growable
    ensures RoundUp64(n) < SizeLimit ==> r.storedSize == Grown(size, growable, n)
  {
    if n <= size then Reserved(true, size)
    else if !growable then Reserved(false, size)
    else Reserved(true, StoredSize(n))
  }

  /**
   * On any growable buffer, reserve(0x8000) as written reports success and
   * leaves m_size at 0, below the request, where the corrected reserve
   * keeps the old size and fails.
   */
  lemma ReserveSizeWraps(size: nat)
    requires size < SizeLimit
    ensures ReserveAsWritten(size, true, 0x8000) == Reserved(true, 0)
    ensures Grown(size, true, 0x8000) == size < 0x8000
  {
    assert RoundUp64(0x8000) == 0x8000;
  }

  class StrImpl {
    var data: array<char>
    var len: nat
    var growable: bool

    /** The text is data[..len], NUL-terminated, in a buffer a 15-bit size can describe. */
    ghost predicate Valid()
      reads this, data
    {
      0 < data.Length < SizeLimit && len < data.Length && data[len] == '\0' && '\0' !in data[..len]
    }

    /** The characters of the string. */
    ghost function Contents(): seq<char>
      reads this, data
      requires Valid()
    {
      data[..len]
    }

    /** size(): the buffer size in characters, terminator included. */
    function Size(): nat
      reads this
    {
      data.Length
    }

    /** A str<size> or str<size, false>: an empty string in a buffer of `size` characters. */
    constructor (size: nat, isGrowable: bool)
      requires 0 < size < SizeLimit
      ensures Valid() && fresh(data)
      ensures Contents() == [] && Size() == size && growable == isGrowable
    {
      data := new char[size](_ => '\0');
      len := 0;
      growable := isGrowable;
    }

    /**
     * reserve: succeeds at once when the buffer is large enough, fails on a
     * fixed buffer, and otherwise moves the text to a fresh buffer rounded
     * up to a multiple of 64.  A rounded size the 15-bit field cannot hold
     * is refused (see StoredSize for what the unchecked field stores).
     */
    method Reserve(n: nat) returns (ok: bool)
      requires Valid()
      modifies this
      ensures Valid() && Contents() == old(Contents()) && growable == old(growable)
      ensures Size() == Grown(old(Size()), growable, n)
      ensures ok <==> n <= Size()
      ensures Size() == old(Size()) ==> data == old(data)
      ensures Size() != old(Size()) ==> fresh(data)
    {
      if n <= data.Length {
        return true;
      }
      if !growable {
        return false;
      }
      var newSize := RoundUp64(n);
      if newSize >= SizeLimit {
        return false;
      }
      var oldData := data;
      var newData := new char[newSize](_ => '\0');
      var i := 0;
      while i < oldData.Length
        invariant 0 <= i <= oldData.Length
        invariant data == oldData && len == old(len) && growable == old(growable)
        invariant forall k :: 0 <= k < i ==> newData[k] == oldData[k]
      {
        newData[i] := oldData[i];
        i := i + 1;
      }
      assert newData[..len] == oldData[..len];
      data := newData;
      ok := true;
    }

    /** length(): the number of characters before the terminator. */
    method Length() returns (n: nat)
      requires Valid()
      ensures n == |Contents()| && n < Size()
    {
      n := len;
    }

    /** clear: the string becomes empty; the buffer is kept. */
    method Clear()
      requires Valid()
      modifies this, data
      ensures Valid() && Contents() == [] && data == old(data) && growable == old(growable)
    {
      data[0] := '\0';
      len := 0;
    }

    /** empty: whether the first character is the terminator. */
    method Empty() returns (b: bool)
      requires Valid()
      ensures b <==> Contents() == []
    {
      b := data[0] == '\0';
    }

    /**
     * truncate(pos): a no-op when pos is at least size(); otherwise the
     * text ends at pos.  Callers truncate to at most the current length.
     */
    method Truncate(pos: nat)
      requires Valid() && (pos <= len || pos >= Size())
      modifies this, data
      ensures Valid() && data == old(data) && growable == old(growable)
      ensures pos >= old(Size()) ==> Contents() == old(Contents())
      ensures pos < old(Size()) ==> Contents() == old(Contents())[..pos]
    {
      if pos >= data.Length {
        return;
      }
      data[pos] := '\0';
      assert data[..pos] == old(data[..len])[..pos];
      len := pos;
    }

    /** first_of(c): the index of the first c, -1 if there is none; the terminator is found for NUL. */
    method FirstOf(c: char) returns (i: int)
      requires Valid()
      ensures c == '\0' ==> i == |Contents()|
      ensures c != '\0' ==> (i == -1 <==> c !in Contents())
      ensures c != '\0' && i != -1 ==> 0 <= i < |Contents()| && Contents()[i] == c && c !in Contents()[..i]
    {
      i := 0;
      while i < len && data[i] != c
        invariant 0 <= i <= len
        invariant c !in data[..i]
      {
        assert data[..i + 1] == data[..i] + [data[i]];
        i := i + 1;
      }
      if i == len && c != '\0' {
        assert data[..len] == Contents();
        i := -1;
      }
    }

    /** last_of(c): the index of the last c, -1 if there is none; the terminator is found for NUL. */
    method LastOf(c: char) returns (i: int)
      requires Valid()
      ensures c == '\0' ==> i == |Contents()|
      ensures c != '\0' ==> (i == -1 <==> c !in Contents())
      ensures c != '\0' && i != -1 ==> 0 <= i < |Contents()| && Contents()[i] == c && c !in Contents()[i + 1..]
    {
      if c == '\0' {
        return len;
      }
      i := len;
      while i > 0 && data[i - 1] != c
        invariant 0 <= i <= len
        invariant c !in data[i..len]
      {
        assert data[i - 1..len] == [data[i - 1]] + data[i..len];
        i := i - 1;
      }
      if i == 0 {
        assert data[0..len] == Contents();
        i := -1;
      } else {
        assert data[i..len] == Contents()[i..];
        i := i - 1;
      }
    }

    /** operator[]: the character at i, or NUL at and beyond the length. */
    method At(i: nat) returns (c: char)
      requires Valid()
      ensures i < |Contents()| ==> c == Contents()[i]
      ensures i >= |Contents()| ==> c == '\0'
    {
      c := if i < len then data[i] else '\0';
    }

    /** c_str() + from: the C string that starts at position from. */
    method From(from: nat) returns (t: seq<char>)
      requires Valid() && from <= |Contents()|
      ensures t == Contents()[from..] && IsCString(t)
    {
      t := data[from..len];
      assert forall x :: x in t ==> x in data[..len];
    }

    /**
     * concat(src, n): appends the first n characters of src (all of it when
     * n is negative), growing the buffer if it can.  What does not fit is
     * cut off; the result says whether everything was appended.  A null
     * src (None) appends nothing and fails.
     */
    method ConcatN(src: Option<seq<char>>, n: int) returns (ok: bool)
      requires Valid()
      requires src.Some? ==> IsCString(src.value) && n <= |src.value|
      modifies this, data
      ensures Valid() && growable == old(growable) && Size() >= old(Size())
      ensures Size() == old(Size()) ==> data == old(data)
      ensures Size() != old(Size()) ==> fresh(data)
      ensures src.None? ==> !ok && Contents() == old(Contents()) && Size() == old(Size())
      ensures src.Some? ==>
        var count := if n < 0 then |src.value| else n;
        var k := Min(count, Size() - 1 - old(|Contents()|));
        && Size() == Grown(old(Size()), growable, old(|Contents()|) + count + 1)
        && Contents() == old(Contents()) + src.value[..k]
        && (ok <==> k == count)
    {
      if src.None? {
        return false;
      }
      var count := if n < 0 then |src.value| else n;
      ok := ConcatCount(src.value, count);
    }

    /** str_ncat past the null check: reserve room, then copy what fits. */
    method ConcatCount(s: seq<char>, count: nat) returns (ok: bool)
      requires Valid() && IsCString(s) && count <= |s|
      modifies this, data
      ensures Valid() && growable == old(growable)
      ensures Size() == Grown(old(Size()), growable, old(|Contents()|) + count + 1)
      ensures Size() == old(Size()) ==> data == old(data)
      ensures Size() != old(Size()) ==> fresh(data)
      ensures var k := Min(count, Size() - 1 - old(|Contents()|));
        Contents() == old(Contents()) + s[..k] && (ok <==> k == count)
    {
      var _ := Reserve(len + count + 1);
      ok := PlaceCut(s, count);
    }

    /** Copies as much of s[..count] after the text as the buffer holds. */
    method PlaceCut(s: seq<char>, count: nat) returns (ok: bool)
      requires Valid() && IsCString(s) && count <= |s|
      modifies this, data
      ensures Valid() && growable == old(growable) && data == old(data)
      ensures var k := Min(count, Size() - 1 - old(|Contents()|));
        Contents() == old(Contents()) + s[..k] && (ok <==> k == count)
    {
      var start := len;
      ghost var before := data[..len];
      var buf := data;
      var remaining := buf.Length - start - 1;
      var truncated := remaining < count;
      if !truncated {
        remaining := count;
      }
      if remaining > 0 {
        PlaceAt(buf, start, s[..remaining]);
        assert buf[..start + remaining] == before + s[..remaining];
        assert '\0' !in s[..remaining] by { assert forall x :: x in s[..remaining] ==> x in s; }
        len := start + remaining;
      } else {
        assert s[..0] == [];
        assert before + s[..0] == before;
      }
      ok := !truncated;
    }

    /** concat(src) and operator<<: append a whole C string. */
    method Concat(src: seq<char>) returns (ok: bool)
      requires Valid() && IsCString(src)
      modifies this, data
      ensures Valid() && growable == old(growable) && Size() >= old(Size())
      ensures Size() == old(Size()) ==> data == old(data)
      ensures Size() != old(Size()) ==> fresh(data)
      ensures Size() == Grown(old(Size()), growable, old(|Contents()|) + |src| + 1)
      ensures var k := Min(|src|, Size() - 1 - old(|Contents()|));
              Contents() == old(Contents()) + src[..k] && (ok <==> k == |src|)
    {
      ok := ConcatN(Some(src), -1);
    }

    /** copy(src): clear, then concat. */
    method Copy(src: seq<char>) returns (ok: bool)
      requires Valid() && IsCString(src)
      modifies this, data
      ensures Valid() && growable == old(growable) && Size() >= old(Size())
      ensures Size() == old(Size()) ==> data == old(data)
      ensures Size() != old(Size()) ==> fresh(data)
      ensures Size() == Grown(old(Size()), growable, |src| + 1)
      ensures var k := Min(|src|, Size() - 1);
              Contents() == src[..k] && (ok <==> k == |src|)
    {
      Clear();
      ok := Concat(src);
    }
  }

  /** str_ncat's copy: writes text and a terminator at buf[start..], keeping the prefix. */
  method PlaceAt(buf: array<char>, start: nat, text: seq<char>)
    requires start + |text| < buf.Length
    modifies buf
    ensures buf[..start] == old(buf[..start])
    ensures buf[start..start + |text|] == text && buf[start + |text|] == '\0'
  {
    var i := 0;
    while i < |text|
      invariant 0 <= i <= |text|
      invariant buf[..start] == old(buf[..start])
      invariant buf[start..start + i] == text[..i]
    {
      buf[start + i] := text[i];
      i := i + 1;
    }
    buf[start + |text|] := '\0';
  }

  // ---- char_count --------------------------------------------------------

  /** A UTF-8 continuation byte, 10xxxxxx: (c & 0xc0) == 0x80. */
  predicate IsContinuation(b: byte) { 0x80 <= b < 0xc0 }

  /** The number of bytes of s that are not continuation bytes. */
  function LeadCount(s: seq<byte>): nat
  {
    if s == [] then 0 else (if IsContinuation(s[0]) then 0 else 1) + LeadCount(s[1..])
  }

  /** char_count(const char*): counts the bytes that start a UTF-8 sequence. */
  method CharCount8(s: seq<byte>) returns (count: nat)
    requires 0 !in s
    ensures count == LeadCount(s) && count <= |s|
  {
    count := 0;
    var i := |s|;
    while i > 0
      invariant 0 <= i <= |s|
      invariant count == LeadCount(s[i..]) && count <= |s| - i
    {
      i := i - 1;
      assert s[i..][1..] == s[i + 1..];
      if !IsContinuation(s[i]) {
        count := count + 1;
      }
    }
  }

  /** A Unicode scalar value other than NUL. */
  predicate IsScalar(cp: nat) { 0 < cp < 0x11_0000 && !(0xd800 <= cp < 0xe000) }

  /** The UTF-8 encoding of one scalar value. */
  function Utf8(cp: nat): (bytes: seq<byte>)
    requires IsScalar(cp)
    ensures 1 <= |bytes| <= 4 && !IsContinuation(bytes[0])
    ensures forall i :: 1 <= i < |bytes| ==> IsContinuation(bytes[i])
  {
    if cp < 0x80 then [cp]
    else if cp < 0x800 then [0xc0 + cp / 0x40, 0x80 + cp % 0x40]
    else if cp < 0x1_0000 then [0xe0 + cp / 0x1000, 0x80 + (cp / 0x40) % 0x40, 0x80 + cp % 0x40]
    else [0xf0 + cp / 0x4_0000, 0x80 + (cp / 0x1000) % 0x40, 0x80 + (cp / 0x40) % 0x40, 0x80 + cp % 0x40]
  }

  function EncodeUtf8(cps: seq<nat>): seq<byte>
    requires forall i :: 0 <= i < |cps| ==> IsScalar(cps[i])
  {
    if cps == [] then [] else Utf8(cps[0]) + EncodeUtf8(cps[1..])
  }

  lemma {:induction false} LeadCountAppend(a: seq<byte>, b: seq<byte>)
    ensures LeadCount(a + b) == LeadCount(a) + LeadCount(b)
  {
    if a != [] {
      assert (a + b)[1..] == a[1..] + b;
      LeadCountAppend(a[1..], b);
    } else {
      assert a + b == b;
    }
  }

  lemma LeadCountOne(cp: nat)
    requires IsScalar(cp)
    ensures LeadCount(Utf8(cp)) == 1
  {
    var u := Utf8(cp);
    TailIsContinuations(u[1..]);
    assert LeadCount(u) == 1 + LeadCount(u[1..]);
  }

  lemma {:induction false} TailIsContinuations(s: seq<byte>)
    requires forall i :: 0 <= i < |s| ==> IsContinuation(s[i])
    ensures LeadCount(s) == 0
  {
    if s != [] {
      TailIsContinuations(s[1..]);
    }
  }

  /** char_count of well-formed UTF-8 is the number of code points encoded. */
  lemma {:induction false} CharCountOfUtf8(cps: seq<nat>)
    requires forall i :: 0 <= i < |cps| ==> IsScalar(cps[i])
    ensures LeadCount(EncodeUtf8(cps)) == |cps|
  {
    if cps != [] {
      LeadCountOne(cps[0]);
      CharCountOfUtf8(cps[1..]);
      LeadCountAppend(Utf8(cps[0]), EncodeUtf8(cps[1..]));
    }
  }

  predicate IsHighSurrogate(u: nat) { 0xd800 <= u < 0xdc00 }
  predicate IsLowSurrogate(u: nat) { 0xdc00 <= u < 0xe000 }

  /** The number of characters in UTF-16 units s, a surrogate pair counting once. */
  function UnitCount(s: seq<nat>): nat
    decreases |s|
  {
    if s == [] then 0
    else if IsHighSurrogate(s[0]) && |s| > 1 && IsLowSurrogate(s[1]) then 1 + UnitCount(s[2..])
    else 1 + UnitCount(s[1..])
  }

  /** char_count(const wchar_t*): counts UTF-16 characters, a surrogate pair as one. */
  method CharCount16(s: seq<nat>) returns (count: nat)
    requires 0 !in s && forall i :: 0 <= i < |s| ==> s[i] < 0x1_0000
    ensures count == UnitCount(s) && count <= |s|
  {
    count := 0;
    var i := 0;
    while i < |s|
      invariant 0 <= i <= |s|
      invariant count + UnitCount(s[i..]) == UnitCount(s)
      invariant count <= i
    {
      var c := s[i];
      i := i + 1;
      count := count + 1;
      if IsHighSurrogate(c) && i < |s| && IsLowSurrogate(s[i]) {
        assert s[i - 1..][2..] == s[i + 1..];
        i := i + 1;
      } else {
        assert s[i - 1..][1..] == s[i..];
      }
    }
  }

  /** The UTF-16 encoding of one scalar value: one unit, or a surrogate pair. */
  function Utf16(cp: nat): (units: seq<nat>)
    requires IsScalar(cp)
  {
    if cp < 0x1_0000 then [cp]
    else [0xd800 + (cp - 0x1_0000) / 0x400, 0xdc00 + (cp - 0x1_0000) % 0x400]
  }

  function EncodeUtf16(cps: seq<nat>): seq<nat>
    requires forall i :: 0 <= i < |cps| ==> IsScalar(cps[i])
  {
    if cps == [] then [] else Utf16(cps[0]) + EncodeUtf16(cps[1..])
  }

  /** char_count of well-formed UTF-16 is the number of code points encoded. */
  lemma {:induction false} CharCountOfUtf16(cps: seq<nat>)
    requires forall i :: 0 <= i < |cps| ==> IsScalar(cps[i])
    ensures UnitCount(EncodeUtf16(cps)) == |cps|
  {
    if cps != [] {
      var u := Utf16(cps[0]);
      var rest := EncodeUtf16(cps[1..]);
      CharCountOfUtf16(cps[1..]);
      if |u| == 1 {
        assert (u + rest)[1..] == rest;
      } else {
        assert (u + rest)[2..] == rest;
      }
    }
  }
}
