// Doskey macro expansion: where a command ends, the growable output stream
// the expansion is written into, the `$` tags of a macro's text, the
// collection of its arguments and the reader of the resulting lines.
module Doskey {
  import opened Common

  // ---------------------------------------------------------------------
  // find_command_end

  /** The number of '"' in s[..j]. */
  function QuotesBefore(s: seq<char>, j: nat): nat
    requires j <= |s|
  {
    if j == 0 then 0 else QuotesBefore(s, j - 1) + (if s[j - 1] == '"' then 1 else 0)
  }

  /** A '|' or '&' at m outside quotes that is not the '&' of a ">&" redirection. */
  predicate Separates(s: seq<char>, m: nat)
    requires m < |s|
  {
    (s[m] == '|' || s[m] == '&') && QuotesBefore(s, m) % 2 == 0 &&
    !(s[m] == '&' && 0 < m && s[m - 1] == '>')
  }

  /** A char of the command: before the end of the text and no separator. */
  predicate CommandChar(s: seq<char>, m: nat)
  {
    More(s, m) && !Separates(s, m)
  }

  /** The scan of find_command_end from j, inside quotes or not. */
  function CommandEndFrom(s: seq<char>, j: nat, quote: bool): (r: nat)
    requires j <= |s|
    ensures j <= r <= |s|
    decreases |s| - j
  {
    if !More(s, j) then j
    else if s[j] == '"' then CommandEndFrom(s, j + 1, !quote)
    else if quote then CommandEndFrom(s, j + 1, quote)
    else if s[j] == '>' && Peek(s, j + 1) == '&' then CommandEndFrom(s, j + 2, quote)
    else if s[j] == '|' || s[j] == '&' then j
    else CommandEndFrom(s, j + 1, quote)
  }

  function CommandEnd(s: seq<char>): nat
  {
    CommandEndFrom(s, 0, false)
  }

  lemma {:induction false} CommandEndFromIsFirst(s: seq<char>, j: nat, quote: bool)
    requires j <= |s|
    requires quote <==> QuotesBefore(s, j) % 2 == 1
    requires 0 < j && s[j - 1] == '>' && !quote ==> !(More(s, j) && s[j] == '&')
    ensures var r := CommandEndFrom(s, j, quote);
            (!More(s, r) || Separates(s, r)) && forall m :: j <= m < r ==> CommandChar(s, m)
    decreases |s| - j
  {
    if !More(s, j) {
    } else if s[j] == '"' {
      CommandEndFromIsFirst(s, j + 1, !quote);
    } else if quote {
      CommandEndFromIsFirst(s, j + 1, quote);
    } else if s[j] == '>' && Peek(s, j + 1) == '&' {
      assert !Separates(s, j + 1);
      CommandEndFromIsFirst(s, j + 2, quote);
    } else if s[j] == '|' || s[j] == '&' {
    } else {
      CommandEndFromIsFirst(s, j + 1, quote);
    }
  }

  /** The command ends at the first unquoted '|' or '&' that is not part of ">&", or
      at the end of the text: everything before that index belongs to the command. */
  lemma CommandEndIsFirstSeparator(s: seq<char>)
    ensures var r := CommandEnd(s);
            r <= |s| && (!More(s, r) || Separates(s, r)) && forall m :: 0 <= m < r ==> CommandChar(s, m)
  {
    CommandEndFromIsFirst(s, 0, false);
  }

  method FindCommandEnd(s: seq<char>) returns (r: nat)
    ensures r == CommandEnd(s)
  {
    var quote := false;
    var j := 0;
    while More(s, j)
      invariant j <= |s|
      invariant CommandEndFrom(s, j, quote) == CommandEnd(s)
      decreases |s| - j
    {
      var c := s[j];
      j := j + 1;
      if c == '"' {
        quote := !quote;
      } else if !quote {
        if c == '>' && Peek(s, j) == '&' {
          j := j + 1;
        } else if c == '|' || c == '&' {
          return j - 1;
        }
      }
    }
    r := j;
  }

  // ---------------------------------------------------------------------
  // str_stream

  /** grow rounds its size hint up to a multiple of 128. */
  function RoundUp128(hint: nat): (n: nat)
    ensures n % 128 == 0 && hint <= n < hint + 128
  {
    (hint + 127) / 128 * 128
  }

  /** The length without trailing spaces. */
  function TrimmedLen(t: seq<char>): (n: nat)
    ensures n <= |t|
  {
    if |t| > 0 && t[|t| - 1] == ' ' then TrimmedLen(t[..|t| - 1]) else |t|
  }

  /** trimmed_length drops exactly the trailing run of spaces. */
  lemma {:induction false} TrimmedLenDropsTrailingSpaces(t: seq<char>)
    ensures var n := TrimmedLen(t);
            (n == 0 || t[n - 1] != ' ') && forall m :: n <= m < |t| ==> t[m] == ' '
    decreases |t|
  {
    if |t| > 0 && t[|t| - 1] == ' ' {
      TrimmedLenDropsTrailingSpaces(t[..|t| - 1]);
    }
  }

  /** The output stream: a buffer of capacity buf.Length, filled up to cursor. */
  class StrStream {
    var buf: array<char>
    var cursor: nat

    predicate Valid()
      reads this
    {
      cursor <= buf.Length && buf.Length % 128 == 0
    }

    function Contents(): seq<char>
      reads this, buf
      requires Valid()
    {
      buf[..cursor]
    }

    constructor()
      ensures Valid() && Contents() == [] && buf.Length == 0
    {
      buf := new char[0];
      cursor := 0;
    }

    /** Reallocates with room for the rounded hint more, keeping the contents. */
    method Grow(hint: nat)
      requires Valid()
      modifies this
      ensures Valid() && fresh(buf) && cursor == old(cursor)
      ensures buf.Length == old(buf.Length) + RoundUp128(hint)
      ensures Contents() == old(Contents())
    {
      var next := new char[buf.Length + RoundUp128(hint)];
      forall k | 0 <= k < buf.Length {
        next[k] := buf[k];
      }
      buf := next;
    }

    method Put(c: char)
      requires Valid()
      modifies this, buf
      ensures Valid() && Contents() == old(Contents()) + [c]
      ensures buf.Length == if old(cursor) < old(buf.Length) then old(buf.Length) else old(buf.Length) + 128
      ensures buf == old(buf) || fresh(buf)
    {
      if cursor >= buf.Length {
        Grow(128);
      }
      buf[cursor] := c;
      cursor := cursor + 1;
    }

    method PutRange(src: seq<char>)
      requires Valid()
      modifies this, buf
      ensures Valid() && Contents() == old(Contents()) + src
      ensures buf.Length == if old(cursor) + |src| < old(buf.Length) then old(buf.Length)
                            else old(buf.Length) + RoundUp128(|src|)
      ensures buf == old(buf) || fresh(buf)
    {
      if cursor + |src| >= buf.Length {
        Grow(|src|);
      }
      ghost var cap := buf.Length;
      var i := 0;
      while i < |src|
        invariant i <= |src| && Valid() && buf.Length == cap
        invariant cursor == old(cursor) + i && cursor + (|src| - i) <= buf.Length
        invariant buf[..cursor] == old(Contents()) + src[..i]
        invariant buf == old(buf) || fresh(buf)
      {
        buf[cursor] := src[i];
        assert src[..i + 1] == src[..i] + [src[i]];
        i := i + 1;
        cursor := cursor + 1;
      }
      assert src[..i] == src;
    }

    method Length() returns (n: nat)
      requires Valid()
      ensures n == |Contents()|
    {
      n := cursor;
    }

    method TrimmedLength() returns (n: nat)
      requires Valid()
      ensures n == TrimmedLen(Contents())
    {
      n := cursor;
      while n > 0 && buf[n - 1] == ' '
        invariant n <= cursor
        invariant TrimmedLen(buf[..n]) == TrimmedLen(buf[..cursor])
      {
        assert buf[..n][..n - 1] == buf[..n - 1];
        n := n - 1;
      }
    }

    /** Hands the text over and leaves the stream empty and unallocated. */
    method Collect() returns (t: seq<char>)
      requires Valid()
      modifies this
      ensures Valid() && t == old(Contents()) && Contents() == [] && buf.Length == 0
    {
      t := buf[..cursor];
      buf := new char[0];
      cursor := 0;
    }
  }

  // ---------------------------------------------------------------------
  // Arguments and the split decision

  /** An argument of the command: where it starts in the command and how long it is. */
  datatype Arg = Arg(offset: nat, length: nat)

  predicate ArgsIn(command: seq<char>, args: seq<Arg>)
  {
    forall k :: 0 <= k < |args| ==> args[k].offset + args[k].length <= |command|
  }

  /** The fixed array the arguments are collected into holds ten. */
  const MaxArgs := 10

  /** The tokens of the command are taken until the array is full. */
  method CollectArgs(tokens: seq<Arg>) returns (args: seq<Arg>)
    ensures args == tokens[..Min(|tokens|, MaxArgs)]
  {
    args := [];
    var t := 0;
    while t < |tokens|
      invariant t <= |tokens| && t <= MaxArgs && args == tokens[..t]
    {
      if |args| == MaxArgs {
        break;
      }
      args := args + [tokens[t]];
      t := t + 1;
    }
  }

  /** The collected arguments never exceed the array and come in the tokens' order. */
  lemma CollectedArgsBounded(tokens: seq<Arg>, command: seq<char>)
    requires ArgsIn(command, tokens)
    ensures var args := tokens[..Min(|tokens|, MaxArgs)];
            |args| <= MaxArgs && ArgsIn(command, args) && (|tokens| <= MaxArgs ==> args == tokens)
  {
    var args := tokens[..Min(|tokens|, MaxArgs)];
    assert forall k :: 0 <= k < |args| ==> args[k] == tokens[k];
  }

  /** The number of '$' immediately before j. */
  function DollarRun(s: seq<char>, j: nat): nat
    requires j <= |s|
  {
    if j == 0 || s[j - 1] != '$' then 0 else DollarRun(s, j - 1) + 1
  }

  predicate IsArgTag(c: char)
  {
    c == '*' || '1' <= c <= '9'
  }

  /** A "$*" or "$1".."$9" tag at j inside quotes; a '$' after an odd run of '$' is the
      second half of a "$$" and starts no tag. */
  predicate QuotedArgTag(text: seq<char>, j: nat)
    requires j < |text|
  {
    text[j] == '$' && DollarRun(text, j) % 2 == 0 && IsArgTag(Peek(text, j + 1)) &&
    QuotesBefore(text, j) % 2 == 1
  }

  /** The scan that decides whether the input is split at the next command separator. */
  function SplitsFrom(text: seq<char>, j: nat, quote: bool): bool
    requires j <= |text|
    decreases |text| - j
  {
    if !More(text, j) then true
    else if text[j] == '"' then SplitsFrom(text, j + 1, !quote)
    else if text[j] != '$' then SplitsFrom(text, j + 1, quote)
    else if IsArgTag(Peek(text, j + 1)) then !quote && SplitsFrom(text, j + 1, quote)
    else if Peek(text, j + 1) == '$' then SplitsFrom(text, j + 2, quote)
    else SplitsFrom(text, j + 1, quote)
  }

  lemma {:induction false} SplitsFromTags(text: seq<char>, j: nat, quote: bool)
    requires IsCString(text) && j <= |text|
    requires quote <==> QuotesBefore(text, j) % 2 == 1
    requires j < |text| && text[j] == '$' ==> DollarRun(text, j) % 2 == 0
    ensures SplitsFrom(text, j, quote) <==> forall m :: j <= m < |text| ==> !QuotedArgTag(text, m)
    decreases |text| - j
  {
    if j < |text| {
      if text[j] == '"' {
        SplitsFromTags(text, j + 1, !quote);
      } else if text[j] != '$' {
        SplitsFromTags(text, j + 1, quote);
      } else if IsArgTag(Peek(text, j + 1)) {
        if !quote {
          SplitsFromTags(text, j + 1, quote);
        } else {
          assert QuotedArgTag(text, j);
        }
      } else if Peek(text, j + 1) == '$' {
        assert !QuotedArgTag(text, j + 1);
        SplitsFromTags(text, j + 2, quote);
      } else {
        SplitsFromTags(text, j + 1, quote);
      }
    }
  }

  /** The enhanced mode splits the input at the next separator unless the macro has a
      "$*" or "$1".."$9" inside quotes. */
  lemma SplitUnlessQuotedArgTag(text: seq<char>)
    requires IsCString(text)
    ensures SplitsFrom(text, 0, false) <==> forall m :: 0 <= m < |text| ==> !QuotedArgTag(text, m)
  {
    SplitsFromTags(text, 0, false);
  }

  method MacroSplits(text: seq<char>) returns (split: bool)
    ensures split == SplitsFrom(text, 0, false)
  {
    var quote := false;
    var j := 0;
    while More(text, j)
      invariant j <= |text|
      invariant SplitsFrom(text, j, quote) == SplitsFrom(text, 0, false)
      decreases |text| - j
    {
      var c := text[j];
      j := j + 1;
      if c == '"' {
        quote := !quote;
      }
      if c == '$' {
        var tag := Peek(text, j);
        if IsArgTag(tag) {
          if quote {
            return false;
          }
        } else if tag == '$' {
          j := j + 1;
        }
      }
    }
    split := true;
  }

  // ---------------------------------------------------------------------
  // Tag expansion

  /** The char a converting tag stands for, or NUL when c names none. */
  function TagChar(c: char): char
  {
    match c
    case '$' => '$'
    case 'g' => '>'
    case 'G' => '>'
    case 'l' => '<'
    case 'L' => '<'
    case 'b' => '|'
    case 'B' => '|'
    case 't' => '\n'
    case 'T' => '\n'
    case _ => '\0'
  }

  /** The text of one argument. */
  function ArgText(command: seq<char>, a: Arg): seq<char>
    requires a.offset + a.length <= |command|
  {
    command[a.offset..a.offset + a.length]
  }

  /** What "$1".."$9" or "$*" inserts: nothing without arguments, "$*" the command from
      the first argument on, "$n" the n-th argument if there is one. */
  function ArgInsert(c: char, command: seq<char>, args: seq<Arg>): seq<char>
    requires IsArgTag(c) && ArgsIn(command, args)
  {
    if |args| == 0 then []
    else if c == '*' then command[args[0].offset..]
    else if c as int - '1' as int < |args| then ArgText(command, args[c as int - '1' as int])
    else []
  }

  /** What the two chars "$c" expand to. */
  function TagText(c: char, command: seq<char>, args: seq<Arg>): seq<char>
    requires ArgsIn(command, args)
  {
    if TagChar(c) != '\0' then [TagChar(c)]
    else if IsArgTag(c) then ArgInsert(c, command, args)
    else ['$', c]
  }

  /** The expansion of the macro text t, read as a C string. */
  function Expand(t: seq<char>, command: seq<char>, args: seq<Arg>): seq<char>
    requires ArgsIn(command, args)
    decreases |t|
  {
    if t == [] || t[0] == '\0' then []
    else if t[0] != '$' then [t[0]] + Expand(t[1..], command, args)
    else if |t| == 1 || t[1] == '\0' then []
    else TagText(t[1], command, args) + Expand(t[2..], command, args)
  }

  /** Macro text that the expansion loop reads to its end in whole steps: no '$' is left
      without the char after it. */
  predicate Closed(a: seq<char>)
    decreases |a|
  {
    a == [] || (a[0] != '$' && Closed(a[1..])) || (a[0] == '$' && |a| >= 2 && Closed(a[2..]))
  }

  /** Expansion is piecewise: a closed prefix expands on its own. */
  lemma {:induction false} ExpandAppend(a: seq<char>, b: seq<char>, command: seq<char>, args: seq<Arg>)
    requires ArgsIn(command, args) && IsCString(a) && Closed(a)
    ensures Expand(a + b, command, args) == Expand(a, command, args) + Expand(b, command, args)
    decreases |a|
  {
    if a == [] {
      assert a + b == b;
    } else if a[0] != '$' && Closed(a[1..]) {
      assert (a + b)[1..] == a[1..] + b;
      ExpandAppend(a[1..], b, command, args);
    } else {
      assert (a + b)[2..] == a[2..] + b;
      ExpandAppend(a[2..], b, command, args);
    }
  }

  /** Text without '$' is copied unchanged. */
  lemma {:induction false} ExpandVerbatim(t: seq<char>, command: seq<char>, args: seq<Arg>)
    requires ArgsIn(command, args) && IsCString(t) && '$' !in t
    ensures Expand(t, command, args) == t
    decreases |t|
  {
    if t != [] {
      assert t[0] in t;
      assert forall c :: c in t[1..] ==> c in t;
      ExpandVerbatim(t[1..], command, args);
    }
  }

  /** The converting tags: "$$", "$g", "$l", "$b" and "$t", in either case. */
  lemma TagTable(c: char)
    ensures TagChar(c) != '\0' <==> c in "$gGlLbBtT"
    ensures TagChar('$') == '$' && TagChar('g') == '>' && TagChar('l') == '<'
    ensures TagChar('b') == '|' && TagChar('t') == '\n'
    ensures TagChar(c) == TagChar(ToLower(c))
  {
  }

  /** A converting tag "$c" expands to its char. */
  lemma ConvertedTag(c: char, rest: seq<char>, command: seq<char>, args: seq<Arg>)
    requires ArgsIn(command, args) && TagChar(c) != '\0'
    ensures Expand(['$', c] + rest, command, args) == [TagChar(c)] + Expand(rest, command, args)
  {
    assert (['$', c] + rest)[2..] == rest;
  }

  /** "$c" with no converting or argument tag c is copied as it is. */
  lemma UnknownTagLiteral(c: char, rest: seq<char>, command: seq<char>, args: seq<Arg>)
    requires ArgsIn(command, args)
    requires c != '\0' && TagChar(c) == '\0' && !IsArgTag(c)
    ensures Expand(['$', c] + rest, command, args) == ['$', c] + Expand(rest, command, args)
  {
    assert (['$', c] + rest)[2..] == rest;
  }

  /** A lone '$' ending a closed text is dropped. */
  lemma TrailingDollarDropped(a: seq<char>, command: seq<char>, args: seq<Arg>)
    requires ArgsIn(command, args) && IsCString(a) && Closed(a)
    ensures Expand(a + ['$'], command, args) == Expand(a, command, args)
  {
    ExpandAppend(a, ['$'], command, args);
  }

  /** "$1".."$9" insert that argument, or nothing when it is missing; without arguments
      every argument tag vanishes. */
  lemma ArgumentTag(c: char, rest: seq<char>, command: seq<char>, args: seq<Arg>)
    requires ArgsIn(command, args) && '1' <= c <= '9'
    ensures var k := c as int - '1' as int;
            Expand(['$', c] + rest, command, args) ==
              (if k < |args| then ArgText(command, args[k]) else []) + Expand(rest, command, args)
  {
    assert (['$', c] + rest)[2..] == rest;
  }

  /** "$*" inserts the command from its first argument to its end, or nothing. */
  lemma StarTag(rest: seq<char>, command: seq<char>, args: seq<Arg>)
    requires ArgsIn(command, args)
    ensures Expand(['$', '*'] + rest, command, args) ==
              (if |args| == 0 then [] else command[args[0].offset..]) + Expand(rest, command, args)
  {
    assert (['$', '*'] + rest)[2..] == rest;
  }

  /** A plain char at i is copied. */
  lemma ExpandPlain(text: seq<char>, i: nat, command: seq<char>, args: seq<Arg>)
    requires ArgsIn(command, args) && i < |text| && text[i] != '\0' && text[i] != '$'
    ensures Expand(text[i..], command, args) == [text[i]] + Expand(text[i + 1..], command, args)
  {
    assert text[i..][1..] == text[i + 1..];
  }

  /** A '$' at i followed by the NUL or the end ends the expansion. */
  lemma ExpandLoneDollar(text: seq<char>, i: nat, command: seq<char>, args: seq<Arg>)
    requires ArgsIn(command, args) && i < |text| && text[i] == '$' && Ch(text, i + 1) == '\0'
    ensures Expand(text[i..], command, args) == []
  {
  }

  /** A tag "$c" at i expands to its text. */
  lemma ExpandTag(text: seq<char>, i: nat, command: seq<char>, args: seq<Arg>)
    requires ArgsIn(command, args) && i + 1 < |text| && text[i] == '$' && text[i + 1] != '\0'
    ensures Expand(text[i..], command, args) == TagText(text[i + 1], command, args) + Expand(text[i + 2..], command, args)
  {
    assert text[i..][2..] == text[i + 2..];
  }

  /** The expansion of one tag "$c" written to the stream. */
  method EmitTag(stream: StrStream, c: char, command: seq<char>, args: seq<Arg>)
    requires stream.Valid() && ArgsIn(command, args)
    modifies stream, stream.buf
    ensures stream.Valid() && stream.Contents() == old(stream.Contents()) + TagText(c, command, args)
    ensures stream.buf == old(stream.buf) || fresh(stream.buf)
  {
    var o := TagChar(c);
    if o != '\0' {
      stream.Put(o);
    } else if IsArgTag(c) {
      if |args| > 0 {
        if c == '*' {
          stream.PutRange(command[args[0].offset..]);
        } else if c as int - '1' as int < |args| {
          stream.PutRange(ArgText(command, args[c as int - '1' as int]));
        } else {
          assert ArgInsert(c, command, args) == [];
          assert old(stream.Contents()) + [] == old(stream.Contents());
        }
      } else {
        assert old(stream.Contents()) + [] == old(stream.Contents());
      }
    } else {
      stream.Put('$');
      stream.Put(c);
    }
  }

  /** One turn of the expansion loop at i: it writes a char or a tag's expansion and
      moves on, or stops at a lone '$' before the NUL. */
  method ExpandTurn(stream: StrStream, text: seq<char>, i: nat, command: seq<char>, args: seq<Arg>)
      returns (next: nat, stop: bool)
    requires stream.Valid() && ArgsIn(command, args) && i < |text| && text[i] != '\0'
    modifies stream, stream.buf
    ensures stream.Valid() && (stream.buf == old(stream.buf) || fresh(stream.buf))
    ensures stop ==> Expand(text[i..], command, args) == [] && stream.Contents() == old(stream.Contents())
    ensures !stop ==> (i < next <= |text| &&
              stream.Contents() + Expand(text[next..], command, args) ==
              old(stream.Contents()) + Expand(text[i..], command, args))
  {
    ghost var before := stream.Contents();
    var c := text[i];
    if c != '$' {
      ExpandPlain(text, i, command, args);
      stream.Put(c);
      AppendAssoc(before, [c], Expand(text[i + 1..], command, args));
      return i + 1, false;
    }
    c := Ch(text, i + 1);
    if c == '\0' {
      ExpandLoneDollar(text, i, command, args);
      return i, true;
    }
    ExpandTag(text, i, command, args);
    EmitTag(stream, c, command, args);
    AppendAssoc(before, TagText(c, command, args), Expand(text[i + 2..], command, args));
    return i + 2, false;
  }

  /** The expansion loop writes the macro text's expansion after what the stream held. */
  method ExpandMacro(stream: StrStream, text: seq<char>, command: seq<char>, args: seq<Arg>)
    requires stream.Valid() && ArgsIn(command, args)
    modifies stream, stream.buf
    ensures stream.Valid() && stream.Contents() == old(stream.Contents()) + Expand(text, command, args)
  {
    var i := 0;
    assert text[i..] == text;
    while Ch(text, i) != '\0'
      invariant i <= |text| && stream.Valid()
      invariant stream.Contents() + Expand(text[i..], command, args) ==
                old(stream.Contents()) + Expand(text, command, args)
      invariant stream.buf == old(stream.buf) || fresh(stream.buf)
      decreases |text| - i
    {
      var stop;
      i, stop := ExpandTurn(stream, text, i, command, args);
      if stop {
        break;
      }
    }
  }

  // ---------------------------------------------------------------------
  // doskey_alias

  /** The first '\n' or NUL at or after c. */
  function LineEnd(buf: seq<char>, c: nat): (e: nat)
    requires c < |buf| && buf[|buf| - 1] == '\0'
    ensures c <= e < |buf| && (buf[e] == '\n' || buf[e] == '\0')
    decreases |buf| - c
  {
    if buf[c] == '\n' || buf[c] == '\0' then c else LineEnd(buf, c + 1)
  }

  /** The first NUL at or after c. */
  function TextEnd(buf: seq<char>, c: nat): (z: nat)
    requires c < |buf| && buf[|buf| - 1] == '\0'
    ensures c <= z < |buf| && buf[z] == '\0'
    decreases |buf| - c
  {
    if buf[c] == '\0' then c else TextEnd(buf, c + 1)
  }

  /** Where next() leaves the cursor: past the newline, or on the NUL. */
  function LineNext(buf: seq<char>, c: nat): nat
    requires c < |buf| && buf[|buf| - 1] == '\0'
  {
    var e := LineEnd(buf, c);
    if buf[e] == '\n' then e + 1 else e
  }

  lemma {:induction false} LineEndIsFirst(buf: seq<char>, c: nat)
    requires c < |buf| && buf[|buf| - 1] == '\0'
    ensures forall m :: c <= m < LineEnd(buf, c) ==> buf[m] != '\n' && buf[m] != '\0'
    decreases |buf| - c
  {
    if buf[c] != '\n' && buf[c] != '\0' {
      LineEndIsFirst(buf, c + 1);
    }
  }

  /** The lines next() returns one after another from the cursor c. */
  function Lines(buf: seq<char>, c: nat): seq<seq<char>>
    requires c < |buf| && buf[|buf| - 1] == '\0'
    decreases |buf| - c
  {
    if buf[c] == '\0' then [] else [buf[c..LineEnd(buf, c)]] + Lines(buf, LineNext(buf, c))
  }

  /** Each line followed by a newline. */
  function JoinLines(ls: seq<seq<char>>): seq<char>
  {
    if ls == [] then [] else ls[0] + ['\n'] + JoinLines(ls[1..])
  }

  lemma JoinFirst(line: seq<char>, rest: seq<seq<char>>)
    ensures JoinLines([line] + rest) == line + ['\n'] + JoinLines(rest)
  {
    assert ([line] + rest)[1..] == rest;
  }

  /** A line ended by a newline: the text from c is the line, the newline and the text after. */
  lemma NewlineSplit(buf: seq<char>, c: nat)
    requires c < |buf| && buf[|buf| - 1] == '\0' && buf[LineEnd(buf, c)] == '\n'
    ensures var e := LineEnd(buf, c);
            buf[c..TextEnd(buf, c)] == buf[c..e] + ['\n'] + buf[e + 1..TextEnd(buf, e + 1)]
  {
    var e := LineEnd(buf, c);
    LineEndIsFirst(buf, c);
    TextEndAfter(buf, c, e + 1);
  }

  /** A text given a final newline if it lacks one. */
  function Rejoined(t: seq<char>): seq<char>
  {
    if t == [] || t[|t| - 1] == '\n' then t else t + ['\n']
  }

  lemma RejoinedAfterNewline(p: seq<char>, t: seq<char>)
    ensures Rejoined(p + ['\n'] + t) == p + ['\n'] + Rejoined(t)
  {
    if t != [] {
      assert (p + ['\n'] + t)[|p| + 1 + |t| - 1] == t[|t| - 1];
    }
  }

  /** A line ended by a newline, followed by lines that rejoin to the rest of the text. */
  lemma RejoinNewline(buf: seq<char>, c: nat)
    requires c < |buf| && buf[|buf| - 1] == '\0' && buf[c] != '\0'
    requires buf[LineEnd(buf, c)] == '\n'
    requires var e := LineEnd(buf, c);
             JoinLines(Lines(buf, e + 1)) == Rejoined(buf[e + 1..TextEnd(buf, e + 1)])
    ensures JoinLines(Lines(buf, c)) == Rejoined(buf[c..TextEnd(buf, c)])
  {
    var e := LineEnd(buf, c);
    var line := buf[c..e];
    var rest := buf[e + 1..TextEnd(buf, e + 1)];
    calc {
      JoinLines(Lines(buf, c));
      JoinLines([line] + Lines(buf, e + 1));
      { JoinFirst(line, Lines(buf, e + 1)); }
      line + ['\n'] + JoinLines(Lines(buf, e + 1));
      line + ['\n'] + Rejoined(rest);
      { RejoinedAfterNewline(line, rest); }
      Rejoined(line + ['\n'] + rest);
      { NewlineSplit(buf, c); }
      Rejoined(buf[c..TextEnd(buf, c)]);
    }
  }

  /** A line ended by the NUL is all of the text from c and is the last line. */
  lemma RejoinNul(buf: seq<char>, c: nat)
    requires c < |buf| && buf[|buf| - 1] == '\0' && buf[c] != '\0' && buf[LineEnd(buf, c)] == '\0'
    ensures JoinLines(Lines(buf, c)) == Rejoined(buf[c..TextEnd(buf, c)])
  {
    var e := LineEnd(buf, c);
    LineEndIsFirst(buf, c);
    TextEndAfter(buf, c, e);
    var line := buf[c..e];
    assert Lines(buf, e) == [];
    assert Lines(buf, c) == [line];
    JoinFirst(line, []);
    assert buf[c..TextEnd(buf, c)] == line;
  }

  /** The lines are the text up to the NUL cut at its newlines: rejoined, they give the
      text back, with a newline added after a last line that had none. */
  lemma {:induction false} LinesRejoin(buf: seq<char>, c: nat)
    requires c < |buf| && buf[|buf| - 1] == '\0'
    ensures JoinLines(Lines(buf, c)) == Rejoined(buf[c..TextEnd(buf, c)])
    decreases |buf| - c
  {
    if buf[c] == '\0' {
      assert Lines(buf, c) == [] && TextEnd(buf, c) == c;
    } else if buf[LineEnd(buf, c)] == '\n' {
      LinesRejoin(buf, LineEnd(buf, c) + 1);
      RejoinNewline(buf, c);
    } else {
      RejoinNul(buf, c);
    }
  }

  /** No line holds a newline or a NUL. */
  lemma {:induction false} LinesAreClean(buf: seq<char>, c: nat)
    requires c < |buf| && buf[|buf| - 1] == '\0'
    ensures forall k :: 0 <= k < |Lines(buf, c)| ==> '\n' !in Lines(buf, c)[k] && '\0' !in Lines(buf, c)[k]
    decreases |buf| - c
  {
    if buf[c] != '\0' {
      var e := LineEnd(buf, c);
      LineEndIsFirst(buf, c);
      var line := buf[c..e];
      assert '\n' !in line && '\0' !in line by {
        forall m | 0 <= m < |line| ensures line[m] == buf[c + m] {
        }
      }
      LinesAreClean(buf, LineNext(buf, c));
    }
  }

  /** The NUL found from c is the one found from any later start before it. */
  lemma {:induction false} TextEndAfter(buf: seq<char>, c: nat, d: nat)
    requires c <= d < |buf| && buf[|buf| - 1] == '\0'
    requires forall m :: c <= m < d ==> buf[m] != '\0'
    ensures TextEnd(buf, c) == TextEnd(buf, d)
    decreases d - c
  {
    if c < d {
      TextEndAfter(buf, c + 1, d);
    }
  }

  /** The expanded lines and the cursor that next() advances through them. */
  class DoskeyAlias {
    var buffer: seq<char>
    var cursor: nat

    predicate Valid()
      reads this
    {
      cursor < |buffer| && buffer[|buffer| - 1] == '\0'
    }

    constructor()
      ensures Valid() && buffer == ['\0'] && cursor == 0
    {
      buffer := ['\0'];
      cursor := 0;
    }

    method Reset()
      modifies this
      ensures Valid() && buffer == ['\0'] && cursor == 0
    {
      buffer := ['\0'];
      cursor := 0;
    }

    /** resolve hands over the expansion it collected, which ends in the NUL it wrote. */
    method Assign(text: seq<char>)
      requires IsCString(text)
      modifies this
      ensures Valid() && buffer == text + ['\0'] && cursor == 0
    {
      buffer := text + ['\0'];
      cursor := 0;
    }

    /** operator bool: a line is left. */
    method HasMore() returns (b: bool)
      requires Valid()
      ensures b <==> Lines(buffer, cursor) != []
    {
      b := buffer[cursor] != '\0';
    }

    /** The next line into out; at the end out is left as it was and false returned. */
    method Next(out: seq<char>) returns (ok: bool, line: seq<char>)
      requires Valid()
      modifies this
      ensures Valid() && buffer == old(buffer)
      ensures ok <==> old(Lines(buffer, cursor)) != []
      ensures !ok ==> line == out && cursor == old(cursor)
      ensures ok ==> line == old(Lines(buffer, cursor))[0] && cursor == LineNext(buffer, old(cursor))
      ensures ok ==> Lines(buffer, cursor) == old(Lines(buffer, cursor))[1..]
    {
      if buffer[cursor] == '\0' {
        return false, out;
      }
      ghost var c0 := cursor;
      line := [];
      while buffer[cursor] != '\0'
        invariant c0 <= cursor < |buffer| && Valid() && buffer == old(buffer)
        invariant LineEnd(buffer, c0) == LineEnd(buffer, cursor)
        invariant line == buffer[c0..cursor]
        decreases |buffer| - cursor
      {
        var c := buffer[cursor];
        cursor := cursor + 1;
        if c == '\n' {
          break;
        }
        line := line + [c];
      }
      ok := true;
    }
  }
}
