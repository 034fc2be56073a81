// Session streams: named in-memory byte streams that live for the session.
// A SessionStream holds the bytes (session_stream); a Handle is one opened
// view of it with its own offset and mode (luaL_SessionStream).
module SessionStreams {
  import opened Common

  /** Session streams are limited to 4 MB. */
  const MaxStreamSize: nat := 4 * 1024 * 1024

  const CR: byte := 13
  const LF: byte := 10

  /** A text-mode write hands the stream at most this many bytes at once. */
  const TextChunk: nat := 4096

  /** Bytes produced by a read and the offset the read leaves behind. */
  datatype Chunk = Chunk(bytes: seq<byte>, next: nat)

  // ---------------------------------------------------------------------
  // Capacity

  /** The capacity write reallocates to when need = offset + count + 1
    * bytes do not fit: half as much again (at least the Lua buffer size),
    * half as much again as need if that is still short, and never more
    * than the limit. */
  function GrownCapacity(bufferSize: nat, capacity: nat, need: nat): (c: nat)
    requires capacity <= MaxStreamSize
    ensures capacity <= c <= MaxStreamSize
    ensures c >= Min(need, MaxStreamSize)
    ensures bufferSize <= c || c == MaxStreamSize
  {
    var grown := Max(bufferSize, capacity * 3 / 2);
    var enough := if grown < need then need * 3 / 2 else grown;
    Min(enough, MaxStreamSize)
  }

  /** How many bytes a write of count at offset stores into capacity bytes,
    * one of which is kept for the NUL terminator. */
  function StoredCount(capacity: nat, offset: nat, count: nat): (n: nat)
    ensures n <= count
    ensures offset + 1 >= capacity ==> n == 0
    ensures offset + 1 < capacity ==> offset + n < capacity
  {
    if offset + 1 >= capacity then 0 else Min(count, capacity - 1 - offset)
  }

  // ---------------------------------------------------------------------
  // Text mode: CR LF on the stream, LF in the program

  /** What a text-mode write puts on the stream: a CR before every LF. */
  function AddCr(s: seq<byte>): (t: seq<byte>)
    ensures |t| >= |s|
  {
    if s == [] then [] else (if s[0] == LF then [CR, LF] else [s[0]]) + AddCr(s[1..])
  }

  /** What a text-mode read makes of stream bytes: every CR LF pair becomes LF. */
  function StripCr(t: seq<byte>): (s: seq<byte>)
    ensures |s| <= |t|
  {
    if t == [] then []
    else if |t| >= 2 && t[0] == CR && t[1] == LF then [LF] + StripCr(t[2..])
    else [t[0]] + StripCr(t[1..])
  }

  lemma {:induction false} AddCrAppend(a: seq<byte>, b: seq<byte>)
    ensures AddCr(a + b) == AddCr(a) + AddCr(b)
    decreases |a|
  {
    if a != [] {
      assert (a + b)[1..] == a[1..] + b;
      AddCrAppend(a[1..], b);
    } else {
      assert a + b == b;
    }
  }

  /** The encoding of a prefix one byte longer. */
  lemma AddCrStep(s: seq<byte>, i: nat)
    requires i < |s|
    ensures AddCr(s[..i + 1]) == AddCr(s[..i]) + (if s[i] == LF then [CR, LF] else [s[i]])
  {
    assert s[..i + 1] == s[..i] + [s[i]];
    AddCrAppend(s[..i], [s[i]]);
    assert AddCr([s[i]]) == (if s[i] == LF then [CR, LF] else [s[i]]) + AddCr([]);
  }

  /** Bytes with no LF are written unchanged. */
  lemma {:induction false} AddCrPlain(s: seq<byte>)
    requires forall m :: 0 <= m < |s| ==> s[m] != LF
    ensures AddCr(s) == s
    decreases |s|
  {
    if s != [] {
      assert forall m :: 0 <= m < |s| - 1 ==> s[1..][m] == s[m + 1];
      AddCrPlain(s[1..]);
    }
  }

  /** The encoding of a prefix is a prefix of the encoding. */
  lemma AddCrPrefix(s: seq<byte>, i: nat)
    requires i <= |s|
    ensures |AddCr(s[..i])| <= |AddCr(s)|
  {
    assert s == s[..i] + s[i..];
    AddCrAppend(s[..i], s[i..]);
  }

  /** Reading back in text mode what was written in text mode gives the
    * original bytes. */
  lemma {:induction false} StripAddCr(s: seq<byte>)
    ensures StripCr(AddCr(s)) == s
    decreases |s|
  {
    if s != [] {
      var rest := AddCr(s[1..]);
      StripAddCr(s[1..]);
      if s[0] == LF {
        assert AddCr(s) == [CR, LF] + rest;
        assert AddCr(s)[2..] == rest;
      } else {
        assert AddCr(s) == [s[0]] + rest;
        assert AddCr(s)[1..] == rest;
        if s[0] == CR && |rest| > 0 {
          // The byte after an original CR is never the LF of a pair.
          assert rest[0] == (if s[1] == LF then CR else s[1]);
        }
      }
    }
  }

  // ---------------------------------------------------------------------
  // Specifications of the reads

  /** A text-mode read of at most remaining bytes from offset j of s. */
  function TextRead(s: seq<byte>, j: nat, remaining: nat): (r: Chunk)
    requires j <= |s|
    ensures j <= r.next <= |s| && |r.bytes| <= remaining
    decreases remaining
  {
    if remaining == 0 || j >= |s| then Chunk([], j)
    else if s[j] == CR && j + 1 < |s| && s[j + 1] == LF then
      var r := TextRead(s, j + 2, remaining - 1);
      Chunk([LF] + r.bytes, r.next)
    else
      var r := TextRead(s, j + 1, remaining - 1);
      Chunk([s[j]] + r.bytes, r.next)
  }

  /** A text-mode read yields the CR LF-stripped bytes it passed over. */
  lemma {:induction false} TextReadStrips(s: seq<byte>, j: nat, remaining: nat)
    requires j <= |s|
    ensures TextRead(s, j, remaining).bytes == StripCr(s[j..TextRead(s, j, remaining).next])
    decreases remaining
  {
    var r := TextRead(s, j, remaining);
    if remaining == 0 || j >= |s| {
    } else if s[j] == CR && j + 1 < |s| && s[j + 1] == LF {
      TextReadStrips(s, j + 2, remaining - 1);
      assert s[j..r.next][2..] == s[j + 2..r.next];
    } else {
      var q := TextRead(s, j + 1, remaining - 1);
      TextReadStrips(s, j + 1, remaining - 1);
      assert s[j..r.next][1..] == s[j + 1..r.next];
      assert r.next > j + 1 ==> s[j..r.next][1] == s[j + 1];
    }
  }

  /** Given room for every byte it yields, a text-mode read reaches the end. */
  lemma {:induction false} TextReadToEnd(s: seq<byte>, j: nat, remaining: nat)
    requires j <= |s| && remaining >= |StripCr(s[j..])|
    ensures TextRead(s, j, remaining).next == |s|
    decreases |s| - j
  {
    if j < |s| {
      if s[j] == CR && j + 1 < |s| && s[j + 1] == LF {
        assert s[j..][2..] == s[j + 2..];
        TextReadToEnd(s, j + 2, remaining - 1);
      } else {
        assert s[j..][1..] == s[j + 1..];
        TextReadToEnd(s, j + 1, remaining - 1);
      }
    }
  }

  /** A stream written in text mode reads back, in text mode, as written. */
  lemma TextRoundTrip(s: seq<byte>, remaining: nat)
    requires remaining >= |s|
    ensures TextRead(AddCr(s), 0, remaining) == Chunk(s, |AddCr(s)|)
  {
    var t := AddCr(s);
    StripAddCr(s);
    assert t[0..] == t;
    TextReadToEnd(t, 0, remaining);
    TextReadStrips(t, 0, remaining);
    assert t[0..|t|] == t;
  }

  /** The bytes gets passes over: up to limit of them, ending after the first LF. */
  function RawLine(s: seq<byte>, j: nat, limit: nat): (r: Chunk)
    requires j <= |s|
    ensures j <= r.next <= |s| && r.next - j == |r.bytes| <= limit
    decreases limit
  {
    if limit == 0 || j >= |s| then Chunk([], j)
    else if s[j] == LF then Chunk([LF], j + 1)
    else
      var r := RawLine(s, j + 1, limit - 1);
      Chunk([s[j]] + r.bytes, r.next)
  }

  /** The raw line is the bytes passed over; only its last byte may be LF,
    * and it stops short of the limit and the end only after an LF. */
  lemma {:induction false} RawLineShape(s: seq<byte>, j: nat, limit: nat)
    requires j <= |s|
    ensures var r := RawLine(s, j, limit);
            r.bytes == s[j..r.next] &&
            (forall m :: j <= m < r.next - 1 ==> s[m] != LF) &&
            (r.next < |s| && r.next - j < limit ==> j < r.next && s[r.next - 1] == LF)
    decreases limit
  {
    if limit > 0 && j < |s| && s[j] != LF {
      var r := RawLine(s, j + 1, limit - 1);
      RawLineShape(s, j + 1, limit - 1);
      assert s[j..r.next] == [s[j]] + s[j + 1..r.next];
    }
  }

  /** A run of bytes with no LF before its last, ended by an LF, by the
    * limit or by the end of s, is the raw line. */
  lemma {:induction false} RawLineOfCopy(s: seq<byte>, j: nat, k: nat, limit: nat)
    requires j <= k <= |s| && k - j <= limit
    requires forall m :: j <= m < k - 1 ==> s[m] != LF
    requires k == |s| || k - j == limit || (j < k && s[k - 1] == LF)
    ensures RawLine(s, j, limit) == Chunk(s[j..k], k)
    decreases k - j
  {
    if j < k {
      if s[j] != LF {
        RawLineOfCopy(s, j + 1, k, limit - 1);
        assert s[j..k] == [s[j]] + s[j + 1..k];
      }
    }
  }

  /** The line gets stores: in text mode a final CR LF comes back as LF. */
  function GetsLine(raw: seq<byte>, textMode: bool): (line: seq<byte>)
    ensures |line| <= |raw|
    ensures |raw| > 0 && raw[|raw| - 1] == LF ==> |line| > 0 && line[|line| - 1] == LF
  {
    if textMode && |raw| >= 2 && raw[|raw| - 1] == LF && raw[|raw| - 2] == CR then raw[..|raw| - 2] + [LF]
    else raw
  }

  /** No LF before the last byte. */
  predicate LfOnlyLast(t: seq<byte>)
  {
    forall m :: 0 <= m < |t| - 1 ==> t[m] != LF
  }

  /** Folding a final CR LF keeps LF to the last byte. */
  lemma GetsLineLfOnlyLast(raw: seq<byte>, textMode: bool)
    requires LfOnlyLast(raw)
    ensures LfOnlyLast(GetsLine(raw, textMode))
  {
    var line := GetsLine(raw, textMode);
    if line != raw {
      forall m | 0 <= m < |line| - 1
        ensures line[m] != LF
      {
        assert line[m] == raw[m];
      }
    }
  }

  /** gets stores at most max - 1 bytes, and an LF only as the last of them. */
  lemma GetsBounded(s: seq<byte>, j: nat, max: nat, textMode: bool)
    requires j <= |s| && max > 0
    ensures |GetsLine(RawLine(s, j, max - 1).bytes, textMode)| <= max - 1
    ensures LfOnlyLast(GetsLine(RawLine(s, j, max - 1).bytes, textMode))
  {
    var r := RawLine(s, j, max - 1);
    RawLineShape(s, j, max - 1);
    forall m | 0 <= m < |r.bytes| - 1
      ensures r.bytes[m] != LF
    {
      assert r.bytes[m] == s[j + m];
    }
    GetsLineLfOnlyLast(r.bytes, textMode);
  }

  // ---------------------------------------------------------------------
  // The stream

  class SessionStream {
    /** The Lua library's buffer size (LUAL_BUFFERSIZE), the least capacity
      * of a first allocation. */
    const bufferSize: nat
    /** The allocation; its length is the capacity. */
    var data: array<byte>
    var size: nat

    /** A stream is unallocated and empty, or its size is below its capacity;
      * the capacity never exceeds the limit. */
    predicate Valid()
      reads this
    {
      data.Length <= MaxStreamSize && (size < data.Length || (size == 0 && data.Length == 0))
    }

    /** A stream with contents has a NUL just past them, so a scan from any
      * offset inside the contents stops at their end. */
    predicate Terminated()
      reads this, data
      requires Valid()
    {
      size > 0 ==> data[size] == 0
    }

    function Contents(): seq<byte>
      reads this, data
      requires Valid()
    {
      data[..size]
    }

    constructor(bufferSize: nat)
      ensures Valid() && Terminated() && Contents() == [] && data.Length == 0
      ensures this.bufferSize == bufferSize && fresh(data)
    {
      this.bufferSize := bufferSize;
      data := new byte[0];
      size := 0;
    }

    /** Makes room for need bytes: reallocates to the grown capacity, keeping
      * the bytes, unless they already fit; false if the reallocation fails. */
    method Reserve(need: nat, allocOk: bool) returns (room: bool)
      requires Valid()
      modifies this
      ensures Valid() && size == old(size) && (data == old(data) || fresh(data))
      ensures room <==> need <= old(data.Length) || allocOk
      ensures !room || need <= old(data.Length) ==> data == old(data)
      ensures data.Length == if room && need > old(data.Length) then GrownCapacity(bufferSize, old(data.Length), need)
                             else old(data.Length)
      ensures data[..old(data.Length)] == old(data[..])
      ensures old(Terminated()) ==> Terminated()
    {
      room := true;
      if need > data.Length {
        if !allocOk {
          return false;
        }
        var grown := new byte[GrownCapacity(bufferSize, data.Length, need)];
        forall k | 0 <= k < data.Length {
          grown[k] := data[k];
        }
        data := grown;
      }
    }

    /** Writes buffer at offset, growing the allocation if offset + count + 1
      * bytes do not fit; allocOk is whether the reallocation succeeds. */
    method Write(offset: nat, buffer: seq<byte>, allocOk: bool) returns (actual: nat, next: nat)
      requires Valid()
      modifies this, data
      ensures Valid() && (data == old(data) || fresh(data))
      ensures var need := offset + |buffer| + 1;
              data.Length == if need <= old(data.Length) || !allocOk then old(data.Length)
                             else GrownCapacity(bufferSize, old(data.Length), need)
      ensures offset + |buffer| + 1 > old(data.Length) && !allocOk ==>
                actual == 0 && next == offset && size == old(size) && data == old(data) && Contents() == old(Contents())
      ensures offset + |buffer| + 1 <= old(data.Length) || allocOk ==>
                actual == StoredCount(data.Length, offset, |buffer|)
      ensures allocOk && offset + |buffer| + 1 <= MaxStreamSize ==> actual == |buffer|
      ensures actual <= |buffer| && next == offset + actual && (actual > 0 ==> next < data.Length)
      ensures size == if (offset + |buffer| + 1 > old(data.Length) && !allocOk) || offset + 1 >= data.Length
                      then old(size) else Max(old(size), next)
      ensures (offset + |buffer| + 1 <= old(data.Length) || allocOk) && offset + 1 < data.Length ==> next <= size
      ensures forall k :: 0 <= k < actual ==> data[offset + k] == buffer[k]
      ensures forall k :: 0 <= k < old(size) && !(offset <= k < next) ==> data[k] == old(Contents())[k]
      ensures size > old(size) ==> data[size] == 0
      ensures old(Terminated()) ==> Terminated()
    {
      var room := Reserve(offset + |buffer| + 1, allocOk);
      if !room {
        return 0, offset;
      }
      actual, next := Store(offset, buffer);
    }

    /** The copy once room is made: as much of buffer as fits below the NUL
      * slot, extending the size (and its terminator) if it ends past it. */
    method Store(offset: nat, buffer: seq<byte>) returns (actual: nat, next: nat)
      requires Valid()
      modifies this, data
      ensures Valid() && data == old(data)
      ensures actual == StoredCount(data.Length, offset, |buffer|) && next == offset + actual
      ensures size == if offset + 1 >= data.Length then old(size) else Max(old(size), next)
      ensures forall k :: 0 <= k < actual ==> data[offset + k] == buffer[k]
      ensures forall k :: 0 <= k < data.Length && !(offset <= k < next) && k != size ==> data[k] == old(data[k])
      ensures size > old(size) ==> data[size] == 0
      ensures old(Terminated()) ==> Terminated()
    {
      next := offset;
      if offset + 1 >= data.Length {
        actual := 0;
      } else {
        actual := Min(|buffer|, data.Length - 1 - offset);
        forall k | 0 <= k < actual {
          data[offset + k] := buffer[k];
        }
        next := offset + actual;
        if size < next {
          size := next;
          data[size] := 0;
        }
      }
    }

    /** Reads at most max bytes from offset; a text-mode read turns each
      * CR LF into LF. */
    method Read(offset: nat, buffer: array<byte>, max: nat, textMode: bool) returns (num: nat, next: nat)
      requires Valid() && max <= buffer.Length && buffer != data
      modifies buffer
      ensures num <= max && buffer[num..] == old(buffer[num..])
      ensures textMode ==> offset <= size ==> Chunk(buffer[..num], next) == TextRead(Contents(), offset, max)
      ensures textMode ==> offset > size ==> num == 0 && next == offset
      ensures !textMode ==> num == (if size > offset then Min(max, size - offset) else 0) && next == offset + num
      ensures !textMode ==> buffer[..num] == Contents()[Min(offset, size)..Min(offset, size) + num]
    {
      num := 0;
      next := offset;
      if max > 0 {
        if textMode {
          if offset <= size {
            num, next := ReadText(offset, buffer, max);
          }
        } else if size > offset {
          num := Min(max, size - offset);
          ghost var c := Contents();
          assert c[offset..offset + num] == data[offset..offset + num];
          forall k | 0 <= k < num {
            buffer[k] := data[offset + k];
          }
          assert Contents() == c;
          assert buffer[..num] == data[offset..offset + num];
          next := offset + num;
        }
      }
    }

    /** The text-mode read loop: one output byte per turn, a CR LF pair
      * consumed as one LF. */
    method ReadText(offset: nat, buffer: array<byte>, max: nat) returns (num: nat, next: nat)
      requires Valid() && offset <= size && max <= buffer.Length && buffer != data
      modifies buffer
      ensures num <= max && buffer[num..] == old(buffer[num..])
      ensures Chunk(buffer[..num], next) == TextRead(Contents(), offset, max)
    {
      ghost var s := Contents();
      ghost var want := TextRead(s, offset, max);
      num := 0;
      next := offset;
      var remaining := max;
      while remaining > 0 && next < size
        invariant next <= size && num + remaining == max
        invariant forall k :: num <= k < buffer.Length ==> buffer[k] == old(buffer[k])
        invariant buffer[..num] + TextRead(s, next, remaining).bytes == want.bytes
        invariant TextRead(s, next, remaining).next == want.next
      {
        ghost var here := TextRead(s, next, remaining);
        ghost var prefix := buffer[..num];
        var c := data[next];
        assert c == s[next];
        next := next + 1;
        var b := c;
        if c == CR && next < size && data[next] == LF {
          assert s[next] == LF;
          next := next + 1;
          b := LF;
        }
        buffer[num] := b;
        ghost var rest := TextRead(s, next, remaining - 1);
        assert here == Chunk([b] + rest.bytes, rest.next);
        assert buffer[..num + 1] == prefix + [b];
        AppendAssoc(prefix, [b], rest.bytes);
        num := num + 1;
        remaining := remaining - 1;
      }
    }

    /** Reads a line of at most max - 1 bytes into buffer and NUL-terminates
      * it; in text mode a final CR LF is stored as LF. */
    method Gets(offset: nat, buffer: array<byte>, max: nat, textMode: bool) returns (num: nat, next: nat)
      requires Valid() && max <= buffer.Length && buffer != data
      modifies buffer
      ensures max == 0 ==> num == 0 && next == offset && buffer[..] == old(buffer[..])
      ensures max > 0 ==> num < max && buffer[num] == 0 && buffer[num + 1..] == old(buffer[num + 1..])
      ensures max > 0 && offset > size ==> num == 0 && next == offset
      ensures max > 0 && offset <= size ==>
                var raw := RawLine(Contents(), offset, max - 1);
                buffer[..num] == GetsLine(raw.bytes, textMode) && next == raw.next
    {
      num := 0;
      next := offset;
      if max > 0 {
        if offset <= size {
          num, next := ReadLine(offset, buffer, max - 1, textMode);
        }
        buffer[num] := 0;
      }
    }

    /** The gets loop: copies bytes until limit of them or an LF has been
      * copied, then folds a final CR LF in text mode. */
    method ReadLine(offset: nat, buffer: array<byte>, limit: nat, textMode: bool) returns (num: nat, next: nat)
      requires Valid() && offset <= size && limit < buffer.Length && buffer != data
      modifies buffer
      ensures num <= limit && forall k :: num < k < buffer.Length ==> buffer[k] == old(buffer[k])
      ensures var raw := RawLine(Contents(), offset, limit);
              buffer[..num] == GetsLine(raw.bytes, textMode) && next == raw.next
    {
      ghost var s := Contents();
      num := 0;
      next := offset;
      while size > next && num < limit
        invariant offset <= next <= size && num == next - offset <= limit
        invariant forall k :: num <= k < buffer.Length ==> buffer[k] == old(buffer[k])
        invariant buffer[..num] == s[offset..next]
        invariant forall m :: offset <= m < next ==> s[m] != LF
      {
        var c := data[next];
        assert c == s[next];
        buffer[num] := c;
        assert buffer[..num + 1] == s[offset..next + 1];
        next := next + 1;
        num := num + 1;
        if c == LF {
          RawLineOfCopy(s, offset, next, limit);
          num := FoldCrLf(buffer, num, textMode);
          return;
        }
      }
      RawLineOfCopy(s, offset, next, limit);
    }

    /** After gets has copied an LF as the num-th byte: in text mode a CR
      * before it is dropped and the LF stored in its place. */
    static method FoldCrLf(buffer: array<byte>, num: nat, textMode: bool) returns (n: nat)
      requires 0 < num <= buffer.Length && buffer[num - 1] == LF
      modifies buffer
      ensures n <= num && buffer[..n] == GetsLine(old(buffer[..num]), textMode)
      ensures forall k :: n < k < buffer.Length ==> buffer[k] == old(buffer[k])
    {
      n := num;
      if textMode && n >= 2 && buffer[n - 2] == CR {
        ghost var raw := buffer[..n];
        n := n - 1;
        buffer[n - 1] := LF;
        assert buffer[..n] == raw[..|raw| - 2] + [LF];
      }
    }

    /** Truncates the contents to offset bytes, as the source does: the
      * byte at the new size is left as it was. */
    method TruncateAsWritten(offset: nat) returns (ok: bool)
      requires Valid()
      modifies this
      ensures ok && Valid() && data == old(data)
      ensures size == Min(old(size), offset) && Contents() == old(Contents())[..size]
    {
      if size > offset {
        size := offset;
      }
      ok := true;
    }

    /** Truncates the contents to offset bytes and keeps them NUL-terminated. */
    method Truncate(offset: nat) returns (ok: bool)
      requires Valid()
      modifies this, data
      ensures ok && Valid() && data == old(data)
      ensures size == Min(old(size), offset) && Contents() == old(Contents())[..size]
      ensures old(Terminated()) ==> Terminated()
      ensures size < old(size) ==> Terminated()
    {
      if size > offset {
        size := offset;
        data[size] := 0;
      }
      ok := true;
    }

    /** Frees the allocation: no contents and no capacity. */
    method Clear()
      modifies this
      ensures Valid() && Terminated() && Contents() == [] && data.Length == 0
    {
      data := new byte[0];
      size := 0;
    }
  }

  // ---------------------------------------------------------------------
  // A handle on a stream

  /** Where a seek counts from. */
  datatype Whence = Set | Cur | End

  /** The offset a seek lands on: base + delta taken as an unsigned 64-bit
    * value, then limited to the stream size limit. */
  function SeekTarget(base: nat, delta: int): (r: nat)
    requires base <= MaxStreamSize && -0x8000_0000_0000_0000 <= delta < 0x8000_0000_0000_0000
  {
    Min((base + delta) % 0x1_0000_0000_0000_0000, MaxStreamSize)
  }

  /** seek never leaves the limit; a target before the start wraps past it
    * and lands on the limit. */
  lemma SeekClamps(base: nat, delta: int)
    requires base <= MaxStreamSize && -0x8000_0000_0000_0000 <= delta < 0x8000_0000_0000_0000
    ensures SeekTarget(base, delta) <= MaxStreamSize
    ensures base + delta >= 0 ==> SeekTarget(base, delta) == Min(base + delta, MaxStreamSize)
    ensures base + delta < 0 ==> SeekTarget(base, delta) == MaxStreamSize
  {
    if base + delta < 0 {
      assert (base + delta) % 0x1_0000_0000_0000_0000 == base + delta + 0x1_0000_0000_0000_0000;
    }
  }

  /** What a write puts on the stream in the given mode. */
  function OnStream(buffer: seq<byte>, textMode: bool): seq<byte>
  {
    if textMode then AddCr(buffer) else buffer
  }

  /** What the text-mode write loop has put on the stream when its pending
    * chunk starts at start and it has looked at the bytes before i: the
    * encoding of the bytes before the chunk, and the CR of an LF that opens it. */
  function Emitted(buffer: seq<byte>, start: nat, i: nat): seq<byte>
    requires start <= i <= |buffer|
  {
    AddCr(buffer[..start]) + (if start < i && buffer[start] == LF then [CR] else [])
  }

  /** A slice with no LF is written unchanged. */
  lemma {:induction false} AddCrPlainSlice(buffer: seq<byte>, a: nat, b: nat)
    requires a <= b <= |buffer| && forall m :: a <= m < b ==> buffer[m] != LF
    ensures AddCr(buffer[a..b]) == buffer[a..b]
    decreases b - a
  {
    if a < b {
      AddCrPlainSlice(buffer, a + 1, b);
      assert buffer[a..b][1..] == buffer[a + 1..b];
    }
  }

  /** Writing the pending chunk completes the encoding of the bytes before i. */
  lemma ChunkEncoding(buffer: seq<byte>, start: nat, i: nat)
    requires start < i <= |buffer|
    requires forall m :: start < m < i ==> buffer[m] != LF
    ensures Emitted(buffer, start, i) + buffer[start..i] == AddCr(buffer[..i])
  {
    var head, tail := buffer[..start], buffer[start + 1..i];
    assert buffer[..i] == (head + [buffer[start]]) + tail;
    assert buffer[start..i] == [buffer[start]] + tail;
    AddCrAppend(head + [buffer[start]], tail);
    AddCrAppend(head, [buffer[start]]);
    AddCrPlainSlice(buffer, start + 1, i);
    assert AddCr([buffer[start]]) == (if buffer[start] == LF then [CR, LF] else [buffer[start]]) + AddCr([]);
  }

  /** An opened session stream (luaL_SessionStream): the stream it shares
    * with other handles, its mode, and its own offset. */
  class Handle {
    const stream: SessionStream
    const textMode: bool
    const readable: bool
    const writable: bool
    var closed: bool
    var offset: nat

    predicate Valid()
      reads this, stream
    {
      stream.Valid() && offset <= MaxStreamSize
    }

    /** A handle opens in text mode unless it asks for binary. */
    constructor(stream: SessionStream, readable: bool, writable: bool, binary: bool)
      requires stream.Valid()
      ensures Valid() && !closed && offset == 0 && this.stream == stream
      ensures textMode == !binary && this.readable == readable && this.writable == writable
    {
      this.stream := stream;
      this.readable := readable;
      this.writable := writable;
      textMode := !binary;
      closed := false;
      offset := 0;
    }

    /** A closed handle reports size 0. */
    method Size() returns (n: nat)
      requires Valid()
      ensures n == if closed then 0 else stream.size
    {
      n := if closed then 0 else stream.size;
    }

    method Eof() returns (eof: bool)
      requires Valid()
      ensures eof <==> closed || offset >= stream.size
    {
      eof := closed || offset >= stream.size;
    }

    /** Writes the bytes at this handle's offset; in text mode each LF goes
      * on the stream as CR LF, the CRs not counted in the result. */
    method Write(buffer: seq<byte>, allocOk: bool) returns (total: nat)
      requires Valid()
      modifies this`offset, stream, stream.data
      ensures Valid() && total <= |buffer| && (stream.data == old(stream.data) || fresh(stream.data))
      ensures closed || !writable ==> total == 0 && offset == old(offset) && unchanged(stream) && unchanged(stream.data)
      ensures old(stream.Terminated()) ==> stream.Terminated()
      ensures !closed && writable ==>
                Placed(OnStream(buffer, textMode), old(offset), old(stream.size), old(stream.Contents()),
                       allocOk && old(offset) + |OnStream(buffer, textMode)| < MaxStreamSize)
      ensures !closed && writable && allocOk && old(offset) + |OnStream(buffer, textMode)| < MaxStreamSize ==>
                total == |buffer|
    {
      if closed || !writable {
        return 0;
      }
      ghost var fits := allocOk && offset + |OnStream(buffer, textMode)| < MaxStreamSize;
      ghost var off0, size0, before := offset, stream.size, stream.Contents();
      if !textMode {
        total := Put([], buffer, allocOk, off0, size0, before, fits);
        assert [] + buffer == buffer;
      } else {
        total := WriteText(buffer, allocOk, off0, size0, before, fits);
      }
    }

    /** The text-mode write loop: the bytes go to the stream in chunks that
      * end before each LF and at most every TextChunk bytes, and each LF is
      * preceded by a CR. */
    method WriteText(buffer: seq<byte>, allocOk: bool,
                     ghost off0: nat, ghost size0: nat, ghost before: seq<byte>, ghost fits: bool)
      returns (total: nat)
      requires fits == (allocOk && off0 + |AddCr(buffer)| < MaxStreamSize)
      requires Placed([], off0, size0, before, fits)
      modifies this`offset, stream, stream.data
      ensures Placed(AddCr(buffer), off0, size0, before, fits)
      ensures total <= |buffer| && (fits ==> total == |buffer|)
      ensures stream.data == old(stream.data) || fresh(stream.data)
      ensures old(stream.Terminated()) ==> stream.Terminated()
    {
      total := 0;
      var start := 0;
      var i := 0;
      assert Emitted(buffer, 0, 0) == [];
      while i < |buffer|
        invariant TextWriting(buffer, start, i, total, off0, size0, before, fits)
        invariant stream.data == old(stream.data) || fresh(stream.data)
        invariant old(stream.Terminated()) ==> stream.Terminated()
      {
        start, total := TextTurn(buffer, start, i, total, allocOk, off0, size0, before, fits);
        i := i + 1;
      }
      total := TextFlush(buffer, start, total, allocOk, off0, size0, before, fits);
    }

    /** Since off0, with size0 bytes before on the stream: the bytes
      * outside what this handle wrote are as before and, if everything
      * fits, exactly w has been put at off0. */
    ghost predicate Placed(w: seq<byte>, off0: nat, size0: nat, before: seq<byte>, fits: bool)
      reads this, stream, stream.data
    {
      Valid() && off0 <= offset && size0 <= stream.size <= Max(size0, offset) && |before| == size0 &&
      (forall k :: 0 <= k < size0 && !(off0 <= k < offset) ==> stream.data[k] == before[k]) &&
      (fits ==> offset == off0 + |w| && (offset > off0 ==> offset <= stream.size) &&
                forall k :: 0 <= k < |w| ==> stream.data[off0 + k] == w[k])
    }

    /** When everything fitted, the stream holds exactly w from off0 on. */
    lemma PlacedContents(w: seq<byte>, off0: nat, size0: nat, before: seq<byte>)
      requires Placed(w, off0, size0, before, true) && |w| > 0
      ensures offset <= stream.size && stream.Contents()[off0..offset] == w
    {
    }

    /** One write after w: w + bytes have been put, all of them if they fit. */
    method Put(ghost w: seq<byte>, bytes: seq<byte>, allocOk: bool,
               ghost off0: nat, ghost size0: nat, ghost before: seq<byte>, ghost fits: bool)
      returns (n: nat)
      requires Placed(w, off0, size0, before, fits)
      requires fits ==> allocOk && off0 + |w| + |bytes| < MaxStreamSize
      modifies this`offset, stream, stream.data
      ensures Placed(w + bytes, off0, size0, before, fits) && n <= |bytes| && (fits ==> n == |bytes|)
      ensures stream.data == old(stream.data) || fresh(stream.data)
      ensures old(stream.Terminated()) ==> stream.Terminated()
    {
      n := Emit(bytes, allocOk);
      if fits {
        forall k | 0 <= k < |w| + |bytes|
          ensures stream.data[off0 + k] == (w + bytes)[k]
        {
          if k >= |w| {
            assert stream.data[old(offset) + (k - |w|)] == bytes[k - |w|];
          }
        }
      }
    }

    /** The state of the text-mode write loop with its pending chunk at
      * start and the bytes before i looked at. */
    ghost predicate TextWriting(buffer: seq<byte>, start: nat, i: nat, total: nat,
                                off0: nat, size0: nat, before: seq<byte>, fits: bool)
      reads this, stream, stream.data
    {
      start <= i <= |buffer| && i - start <= TextChunk && (start < i || i == 0) &&
      (forall m :: start < m < i ==> buffer[m] != LF) && total <= start && (fits ==> total == start) &&
      Placed(Emitted(buffer, start, i), off0, size0, before, fits)
    }

    /** One turn of the text-mode write loop over the byte at i: flush the
      * pending chunk before an LF or once it is a full TextChunk, and put the
      * CR of an LF. */
    method TextTurn(buffer: seq<byte>, start: nat, i: nat, total: nat, allocOk: bool,
                    ghost off0: nat, ghost size0: nat, ghost before: seq<byte>, ghost fits: bool)
      returns (start': nat, total': nat)
      requires i < |buffer| && fits == (allocOk && off0 + |AddCr(buffer)| < MaxStreamSize)
      requires TextWriting(buffer, start, i, total, off0, size0, before, fits)
      modifies this`offset, stream, stream.data
      ensures TextWriting(buffer, start', i + 1, total', off0, size0, before, fits)
      ensures stream.data == old(stream.data) || fresh(stream.data)
      ensures old(stream.Terminated()) ==> stream.Terminated()
    {
      start', total' := start, total;
      if buffer[i] == LF || i - start == TextChunk {
        if i - start > 0 {
          total' := FlushChunk(buffer, start, i, total, allocOk, off0, size0, before, fits);
        }
        assert Placed(Emitted(buffer, i, i), off0, size0, before, fits);
        if buffer[i] == LF {
          AddCrStep(buffer, i);
          AddCrPrefix(buffer, i + 1);
          var n := Put(Emitted(buffer, i, i), [CR], allocOk, off0, size0, before, fits);
          assert Emitted(buffer, i, i) + [CR] == Emitted(buffer, i, i + 1);
        } else {
          assert Emitted(buffer, i, i) == Emitted(buffer, i, i + 1);
        }
        start' := i;
      } else {
        assert Emitted(buffer, start, i) == Emitted(buffer, start, i + 1);
      }
    }

    /** Writes the pending chunk: the encoding of the bytes before i is then
      * on the stream. */
    method FlushChunk(buffer: seq<byte>, start: nat, i: nat, total: nat, allocOk: bool,
                      ghost off0: nat, ghost size0: nat, ghost before: seq<byte>, ghost fits: bool)
      returns (total': nat)
      requires start < i <= |buffer| && fits == (allocOk && off0 + |AddCr(buffer)| < MaxStreamSize)
      requires forall m :: start < m < i ==> buffer[m] != LF
      requires total <= start && (fits ==> total == start)
      requires Placed(Emitted(buffer, start, i), off0, size0, before, fits)
      modifies this`offset, stream, stream.data
      ensures Placed(Emitted(buffer, i, i), off0, size0, before, fits)
      ensures total' <= i && (fits ==> total' == i)
      ensures stream.data == old(stream.data) || fresh(stream.data)
      ensures old(stream.Terminated()) ==> stream.Terminated()
    {
      ChunkEncoding(buffer, start, i);
      AddCrPrefix(buffer, i);
      var n := Put(Emitted(buffer, start, i), buffer[start..i], allocOk, off0, size0, before, fits);
      total' := total + n;
    }

    /** After the loop: write the last pending chunk. */
    method TextFlush(buffer: seq<byte>, start: nat, total: nat, allocOk: bool,
                     ghost off0: nat, ghost size0: nat, ghost before: seq<byte>, ghost fits: bool)
      returns (total': nat)
      requires fits == (allocOk && off0 + |AddCr(buffer)| < MaxStreamSize)
      requires TextWriting(buffer, start, |buffer|, total, off0, size0, before, fits)
      modifies this`offset, stream, stream.data
      ensures Placed(AddCr(buffer), off0, size0, before, fits)
      ensures total' <= |buffer| && (fits ==> total' == |buffer|)
      ensures stream.data == old(stream.data) || fresh(stream.data)
      ensures old(stream.Terminated()) ==> stream.Terminated()
    {
      total' := total;
      if |buffer| - start > 0 {
        total' := FlushChunk(buffer, start, |buffer|, total, allocOk, off0, size0, before, fits);
      }
      assert buffer[..|buffer|] == buffer;
      assert Emitted(buffer, |buffer|, |buffer|) == AddCr(buffer);
    }

    /** One write to the stream at this handle's offset, which it advances. */
    method Emit(bytes: seq<byte>, allocOk: bool) returns (n: nat)
      requires Valid()
      modifies this`offset, stream, stream.data
      ensures Valid() && n <= |bytes| && offset == old(offset) + n
      ensures old(stream.size) <= stream.size <= Max(old(stream.size), offset)
      ensures stream.data == old(stream.data) || fresh(stream.data)
      ensures old(stream.Terminated()) ==> stream.Terminated()
      ensures forall k :: 0 <= k < old(stream.size) && !(old(offset) <= k < offset) ==>
                stream.data[k] == old(stream.data[k])
      ensures allocOk && old(offset) + |bytes| + 1 <= MaxStreamSize ==>
                n == |bytes| && (n > 0 ==> offset <= stream.size) &&
                forall k :: 0 <= k < n ==> stream.data[old(offset) + k] == bytes[k]
    {
      var next;
      n, next := stream.Write(offset, bytes, allocOk);
      offset := next;
    }

    /** Reads through the stream at this handle's offset in this handle's mode. */
    method Read(buffer: array<byte>, max: nat) returns (num: nat)
      requires Valid() && max <= buffer.Length && buffer != stream.data
      modifies this`offset, buffer
      ensures Valid() && num <= max
      ensures closed || !readable ==> num == 0 && offset == old(offset)
      ensures !closed && readable && textMode && old(offset) <= stream.size ==>
                Chunk(buffer[..num], offset) == TextRead(stream.Contents(), old(offset), max)
      ensures !closed && readable && !textMode ==>
                num == (if stream.size > old(offset) then Min(max, stream.size - old(offset)) else 0) &&
                offset == old(offset) + num
    {
      if closed || !readable {
        return 0;
      }
      var next;
      num, next := stream.Read(offset, buffer, max, textMode);
      offset := next;
    }

    method Gets(buffer: array<byte>, max: nat) returns (num: nat)
      requires Valid() && max <= buffer.Length && buffer != stream.data
      modifies this`offset, buffer
      ensures Valid()
      ensures closed || !readable ==> num == 0 && offset == old(offset)
      ensures !closed && readable && max > 0 ==> num < max && buffer[num] == 0
      ensures !closed && readable && max > 0 && old(offset) <= stream.size ==>
                var raw := RawLine(stream.Contents(), old(offset), max - 1);
                buffer[..num] == GetsLine(raw.bytes, textMode) && offset == raw.next
    {
      if closed || !readable {
        return 0;
      }
      var next;
      num, next := stream.Gets(offset, buffer, max, textMode);
      offset := next;
    }

    /** Truncates the stream at this handle's offset: false once closed, and
      * a no-op on a handle not opened for writing. */
    method Truncate() returns (ok: bool)
      requires Valid()
      modifies stream, stream.data
      ensures Valid() && ok == !closed
      ensures closed || !writable ==> stream.size == old(stream.size)
      ensures !closed && writable ==> stream.size == Min(old(stream.size), offset)
      ensures stream.Contents() == old(stream.Contents())[..stream.size]
    {
      if closed {
        return false;
      }
      if !writable {
        return true;
      }
      ok := stream.Truncate(offset);
    }

    /** Closing succeeds once. */
    method Close() returns (ok: bool)
      modifies this`closed
      ensures ok == !old(closed) && closed
    {
      ok := !closed;
      closed := true;
    }

    /** Moves the offset; a closed handle is an error. */
    method Seek(whence: Whence, delta: int) returns (pos: Option<nat>)
      requires Valid() && -0x8000_0000_0000_0000 <= delta < 0x8000_0000_0000_0000
      modifies this`offset
      ensures Valid()
      ensures closed ==> pos == None && offset == old(offset)
      ensures !closed ==> pos == Some(offset) && offset <= MaxStreamSize
      ensures !closed ==> offset == SeekTarget(match whence case Set => 0 case Cur => old(offset) case End => stream.size, delta)
    {
      if closed {
        return None;
      }
      var base := match whence case Set => 0 case Cur => offset case End => stream.size;
      offset := SeekTarget(base, delta);
      pos := Some(offset);
    }
  }

  /** Bytes written through a text-mode handle onto a new stream read back
    * unchanged through a text-mode handle, when they fit below the limit. */
  method TextWriteReadsBack(bytes: seq<byte>, bufferSize: nat) returns (back: seq<byte>)
    requires |AddCr(bytes)| < MaxStreamSize
    ensures back == bytes
  {
    var s := new SessionStream(bufferSize);
    var h := new Handle(s, true, true, false);
    var wrote := h.Write(bytes, true);
    if |bytes| > 0 {
      h.PlacedContents(AddCr(bytes), 0, 0, []);
    }
    assert s.Contents() == AddCr(bytes);
    TextRoundTrip(bytes, |bytes|);
    var pos := h.Seek(Set, 0);
    var buffer := new byte[|bytes|];
    var num := h.Read(buffer, |bytes|);
    back := buffer[..num];
  }

  /** Writing "123" and truncating to one byte leaves "2" just past the
    * contents where the rest of the stream code expects a NUL. */
  method TruncateLeavesStaleByte() returns (s: SessionStream)
    ensures s.Valid() && s.Contents() == [49] && !s.Terminated()
  {
    s := new SessionStream(0);
    var n, next := s.Write(0, [49, 50, 51], true);
    assert s.data[0..3] == [49, 50, 51];
    var ok := s.TruncateAsWritten(1);
    assert s.data[1] == 50;
  }

  /** With the NUL restored, the same steps leave a terminated stream. */
  method TruncateKeepsTerminator() returns (s: SessionStream)
    ensures s.Valid() && s.Contents() == [49] && s.Terminated()
  {
    s := new SessionStream(0);
    var n, next := s.Write(0, [49, 50, 51], true);
    assert s.data[0..3] == [49, 50, 51];
    var ok := s.Truncate(1);
  }
}
