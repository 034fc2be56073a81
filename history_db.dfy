// Pure helpers of the history database: the history size limit, the
// history-expansion quote test, line identifiers and line breakers.
module HistoryDb {
  import opened Common

  const MaxMaxHistoryLines: int := 999999

  /** get_max_history: the configured limit, with 0, negatives and oversize values meaning the maximum. */
  function GetMaxHistory(limit: int): (r: int)
    ensures 1 <= r <= MaxMaxHistoryLines
    ensures 1 <= limit <= MaxMaxHistoryLines ==> r == limit
    ensures !(1 <= limit <= MaxMaxHistoryLines) ==> r == MaxMaxHistoryLines
  {
    if limit <= 0 || limit > MaxMaxHistoryLines then MaxMaxHistoryLines else limit
  }

  /** The quote state history_db.cpp computes after scanning t: 0, or the quote char most recently switched to. */
  function QuoteState(t: seq<char>): char
  {
    if t == [] then '\0'
    else
      var q := QuoteState(t[..|t| - 1]);
      var c := t[|t| - 1];
      if c == '\'' || c == '"' then (if c == q then '\0' else c) else q
  }

  /** The result history_expand_control gives for a quote state. */
  function ControlFor(setting: int, q: char): bool
  {
    if setting <= 1 then setting <= 0
    else if setting == 2 then q == '\''
    else if setting == 3 then q == '"'
    else if setting == 4 then q == '"' || q == '\''
    else false
  }

  /**
   * history_expand_control: whether the history expansion marker at
   * markerPos must be left alone because it is inside quotes.  Only the
   * first markerPos characters (stopping at the end of the line) count,
   * and every quote met switches the state, as written.
   */
  method HistoryExpandControl(line: seq<char>, markerPos: int, setting: int) returns (r: bool)
    requires IsCString(line)
    ensures setting <= 1 ==> r == (setting <= 0)
    ensures r == ControlFor(setting, QuoteState(line[..Max(0, Min(markerPos, |line|))]))
  {
    if setting <= 1 {
      return setting <= 0;
    }
    var inQuote := '\0';
    var i := 0;
    while i < markerPos && i < |line|
      invariant 0 <= i <= |line|
      invariant i <= Max(0, markerPos)
      invariant inQuote == QuoteState(line[..i])
    {
      var c := line[i];
      assert line[..i + 1][..i] == line[..i];
      if c == '\'' || c == '"' {
        inQuote := if c == inQuote then '\0' else c;
      }
      i := i + 1;
    }
    assert i == Max(0, Min(markerPos, |line|));
    r := ControlFor(setting, inQuote);
  }

  /**
   * An apostrophe inside double quotes switches the state to single
   * quotes: for `"it's !!"` the marker at 6 is reported as outside double
   * quotes, so mode 3 does not protect it.
   */
  lemma ApostropheLeavesDoubleQuotes()
    ensures QuoteState("\"it's ") == '\''
    ensures !ControlFor(3, QuoteState("\"it's "))
  {
    var t := "\"it's ";
    assert t[..1][..0] == [];
    assert QuoteState(t[..1]) == '"';
    assert t[..2][..1] == t[..1];
    assert QuoteState(t[..2]) == '"';
    assert t[..3][..2] == t[..2];
    assert QuoteState(t[..3]) == '"';
    assert t[..4][..3] == t[..3];
    assert QuoteState(t[..4]) == '\'';
    assert t[..5][..4] == t[..4];
    assert QuoteState(t[..5]) == '\'';
    assert t[..5] == t[..|t| - 1];
  }

  /**
   * The intended quote state: inside one kind of quote, the other kind is
   * an ordinary character.
   */
  function CorrectedQuoteState(t: seq<char>): char
  {
    if t == [] then '\0'
    else
      var q := CorrectedQuoteState(t[..|t| - 1]);
      var c := t[|t| - 1];
      if (c == '\'' || c == '"') && (q == '\0' || q == c) then (if c == q then '\0' else c) else q
  }

  /** Text using only one kind of quote gets the same state as written and
      corrected: the quote changes the state only where they agree. */
  lemma {:induction false} OneQuoteKindAgrees(t: seq<char>, quote: char)
    requires quote == '\'' || quote == '"'
    requires forall i :: 0 <= i < |t| && (t[i] == '\'' || t[i] == '"') ==> t[i] == quote
    ensures QuoteState(t) == CorrectedQuoteState(t)
    ensures QuoteState(t) == '\0' || QuoteState(t) == quote
    decreases |t|
  {
    if t != [] {
      OneQuoteKindAgrees(t[..|t| - 1], quote);
    }
  }

  /** With the corrected state, any text after an opening quote and without its closer is inside that quote. */
  lemma {:induction false} CorrectedInsideQuote(pre: seq<char>, quote: char, mid: seq<char>)
    requires quote == '\'' || quote == '"'
    requires CorrectedQuoteState(pre) == '\0'
    requires quote !in mid
    ensures CorrectedQuoteState(pre + [quote] + mid) == quote
    decreases |mid|
  {
    if mid == [] {
      assert (pre + [quote] + mid)[..|pre|] == pre;
    } else {
      var shorter := mid[..|mid| - 1];
      assert quote !in shorter by { assert forall c :: c in shorter ==> c in mid; }
      CorrectedInsideQuote(pre, quote, shorter);
      assert (pre + [quote] + mid)[..|pre + [quote] + mid| - 1] == pre + [quote] + shorter;
    }
  }

  const OffsetBits: nat := 0x2000_0000   // 2^29
  const TwoTo32: nat := 0x1_0000_0000

  /** line_id_impl(o): a 29-bit offset, bank index 0 and the active bit set, packed in 32 bits. */
  function LineId(o: nat): (id: nat)
    requires o < TwoTo32
    ensures id < TwoTo32 && id != 0
    ensures LineOffset(id) == o % OffsetBits && LineBank(id) == 0 && LineActive(id) == 1
  {
    o % OffsetBits + 0x8000_0000
  }

  /** The fields of a packed line id. */
  function LineOffset(id: nat): nat { id % OffsetBits }
  function LineBank(id: nat): nat { (id / OffsetBits) % 4 }
  function LineActive(id: nat): nat { (id / 0x8000_0000) % 2 }

  /** Offsets that fit in 29 bits survive packing. */
  lemma LineIdRoundTrip(o: nat)
    requires o < OffsetBits
    ensures LineOffset(LineId(o)) == o
  {
  }

  /** is_line_breaker: NUL, LF and CR end a history line. */
  function IsLineBreaker(c: byte): (r: bool)
    ensures r <==> c in {0x00, 0x0a, 0x0d}
  {
    c == 0x00 || c == 0x0a || c == 0x0d
  }
}
