// The Windows console input side of the terminal: key events read from the
// console are turned into xterm-compatible byte sequences and queued in a
// small ring buffer, from which the line editor pops one byte at a time.
module TerminalIn {
  import opened Common

  // ---------------------------------------------------------------------
  // Windows console constants: virtual-key codes.

  const VkShift: nat := 0x10
  const VkControl: nat := 0x11
  const VkMenu: nat := 0x12
  const VkPrior: nat := 0x21
  const VkNext: nat := 0x22
  const VkEnd: nat := 0x23
  const VkHome: nat := 0x24
  const VkLeft: nat := 0x25
  const VkUp: nat := 0x26
  const VkRight: nat := 0x27
  const VkDown: nat := 0x28
  const VkInsert: nat := 0x2d
  const VkDelete: nat := 0x2e
  const VkF1: nat := 0x70
  const VkF12: nat := 0x7b

  const Esc: byte := 0x1b

  /** The bits of dwControlKeyState that input processing reads
    * (RIGHT_ALT_PRESSED, LEFT_ALT_PRESSED, RIGHT_CTRL_PRESSED,
    * LEFT_CTRL_PRESSED, SHIFT_PRESSED, ENHANCED_KEY). */
  datatype ControlKeys = ControlKeys(rightAlt: bool, leftAlt: bool, rightCtrl: bool,
                                     leftCtrl: bool, shift: bool, enhanced: bool)
  {
    predicate Alt() { rightAlt || leftAlt }
    predicate Ctrl() { rightCtrl || leftCtrl }
  }

  const NoKeys := ControlKeys(false, false, false, false, false, false)

  /** One KEY_EVENT_RECORD: key-down flag, UTF-16 code unit, virtual key,
    * scan code and control-key state. */
  datatype KeyEvent = KeyEvent(keyDown: bool, keyChar: nat, vk: nat, sc: nat, flags: ControlKeys)

  // ---------------------------------------------------------------------
  // The terminfo tables: xterm sequences for the cursor-block keys (one row
  // per key, one column per modifier index), back-tab and F1-F48.

  const Kcuu1: seq<string> := ["\U{1b}[A",  "\U{1b}[1;2A", "\U{1b}[1;3A", "\U{1b}[1;4A", "\U{1b}[1;5A", "\U{1b}[1;6A", "\U{1b}[1;7A", "\U{1b}[1;8A"]
  const Kcud1: seq<string> := ["\U{1b}[B",  "\U{1b}[1;2B", "\U{1b}[1;3B", "\U{1b}[1;4B", "\U{1b}[1;5B", "\U{1b}[1;6B", "\U{1b}[1;7B", "\U{1b}[1;8B"]
  const Kcub1: seq<string> := ["\U{1b}[D",  "\U{1b}[1;2D", "\U{1b}[1;3D", "\U{1b}[1;4D", "\U{1b}[1;5D", "\U{1b}[1;6D", "\U{1b}[1;7D", "\U{1b}[1;8D"]
  const Kcuf1: seq<string> := ["\U{1b}[C",  "\U{1b}[1;2C", "\U{1b}[1;3C", "\U{1b}[1;4C", "\U{1b}[1;5C", "\U{1b}[1;6C", "\U{1b}[1;7C", "\U{1b}[1;8C"]
  const Kich1: seq<string> := ["\U{1b}[2~", "\U{1b}[2;2~", "\U{1b}[2;3~", "\U{1b}[2;4~", "\U{1b}[2;5~", "\U{1b}[2;6~", "\U{1b}[2;7~", "\U{1b}[2;8~"]
  const Kdch1: seq<string> := ["\U{1b}[3~", "\U{1b}[3;2~", "\U{1b}[3;3~", "\U{1b}[3;4~", "\U{1b}[3;5~", "\U{1b}[3;6~", "\U{1b}[3;7~", "\U{1b}[3;8~"]
  const Khome: seq<string> := ["\U{1b}[H",  "\U{1b}[1;2H", "\U{1b}[1;3H", "\U{1b}[1;4H", "\U{1b}[1;5H", "\U{1b}[1;6H", "\U{1b}[1;7H", "\U{1b}[1;8H"]
  const Kend: seq<string>  := ["\U{1b}[F",  "\U{1b}[1;2F", "\U{1b}[1;3F", "\U{1b}[1;4F", "\U{1b}[1;5F", "\U{1b}[1;6F", "\U{1b}[1;7F", "\U{1b}[1;8F"]
  const Kpp: seq<string>   := ["\U{1b}[5~", "\U{1b}[5;2~", "\U{1b}[5;3~", "\U{1b}[5;4~", "\U{1b}[5;5~", "\U{1b}[5;6~", "\U{1b}[5;7~", "\U{1b}[5;8~"]
  const Knp: seq<string>   := ["\U{1b}[6~", "\U{1b}[6;2~", "\U{1b}[6;3~", "\U{1b}[6;4~", "\U{1b}[6;5~", "\U{1b}[6;6~", "\U{1b}[6;7~", "\U{1b}[6;8~"]
  const Kcbt: string := "\U{1b}[Z"
  const Kfx: seq<string> := [
    // kf1-12: unmodified
    "\U{1b}OP",   "\U{1b}OQ",   "\U{1b}OR",   "\U{1b}OS",
    "\U{1b}[15~", "\U{1b}[17~", "\U{1b}[18~", "\U{1b}[19~",
    "\U{1b}[20~", "\U{1b}[21~", "\U{1b}[23~", "\U{1b}[24~",
    // kf13-24: shift
    "\U{1b}[1;2P",  "\U{1b}[1;2Q",  "\U{1b}[1;2R",  "\U{1b}[1;2S",
    "\U{1b}[15;2~", "\U{1b}[17;2~", "\U{1b}[18;2~", "\U{1b}[19;2~",
    "\U{1b}[20;2~", "\U{1b}[21;2~", "\U{1b}[23;2~", "\U{1b}[24;2~",
    // kf25-36: ctrl
    "\U{1b}[1;5P",  "\U{1b}[1;5Q",  "\U{1b}[1;5R",  "\U{1b}[1;5S",
    "\U{1b}[15;5~", "\U{1b}[17;5~", "\U{1b}[18;5~", "\U{1b}[19;5~",
    "\U{1b}[20;5~", "\U{1b}[21;5~", "\U{1b}[23;5~", "\U{1b}[24;5~",
    // kf37-48: ctrl-shift
    "\U{1b}[1;6P",  "\U{1b}[1;6Q",  "\U{1b}[1;6R",  "\U{1b}[1;6S",
    "\U{1b}[15;6~", "\U{1b}[17;6~", "\U{1b}[18;6~", "\U{1b}[19;6~",
    "\U{1b}[20;6~", "\U{1b}[21;6~", "\U{1b}[23;6~", "\U{1b}[24;6~"
  ]

  /** The sc_map: cursor-block rows in scan-code order up, down, left,
    * right, insert, delete, home, end, page up, page down. */
  const CursorTable: seq<seq<string>> := [Kcuu1, Kcud1, Kcub1, Kcuf1, Kich1, Kdch1, Khome, Kend, Kpp, Knp]

  /** The row of the sc_map whose scan code is sc. */
  function ScanRow(sc: nat): (r: Option<nat>)
    ensures r.Some? ==> r.value < |CursorTable|
  {
    if sc == 'H' as nat then Some(0)
    else if sc == 'P' as nat then Some(1)
    else if sc == 'K' as nat then Some(2)
    else if sc == 'M' as nat then Some(3)
    else if sc == 'R' as nat then Some(4)
    else if sc == 'S' as nat then Some(5)
    else if sc == 'G' as nat then Some(6)
    else if sc == 'O' as nat then Some(7)
    else if sc == 'I' as nat then Some(8)
    else if sc == 'Q' as nat then Some(9)
    else None
  }

  // ---------------------------------------------------------------------
  // Modifier arithmetic.

  function Bit(b: bool): nat { if b then 1 else 0 }

  /** Xterm's modifier number minus one: shift | alt<<1 | ctrl<<2 (the
    * bits are disjoint, so the ors are sums). */
  function ModifierIndex(shift: bool, alt: bool, ctrl: bool): (i: nat)
    ensures i < 8
  {
    Bit(shift) + 2 * Bit(alt) + 4 * Bit(ctrl)
  }

  /** The index into kf1-kf48: twelve keys per group, the group being
    * shift | ctrl<<1. */
  function FunctionKeyIndex(func: nat, shift: bool, ctrl: bool): (i: nat)
    requires func < 12
    ensures i < |Kfx|
  {
    12 * (Bit(shift) + 2 * Bit(ctrl)) + func
  }

  /** The C0 code that Ctrl plus the key vk produces, if any. */
  function CtrlCode(vk: nat): (c: Option<nat>)
    ensures c.Some? ==> c.value < 0x20
  {
    if 'A' as nat <= vk <= 'Z' as nat then Some(vk - ('A' as nat - 1))
    else if 0xdb <= vk <= 0xdd then Some(vk - (0xdb - 0x1b))
    else if vk == 0x32 then Some(0)
    else if vk == 0x36 then Some(0x1e)
    else if vk == 0xbd then Some(0x1f)
    else None
  }

  /** Clears the Ctrl bits, and one Alt bit, of a printable key: the mark
    * that the character was formed with AltGr or LeftAlt+LeftCtrl. */
  function AltGrCleared(keyChar: nat, flags: ControlKeys): (f: ControlKeys)
  {
    if keyChar > 0x1f && flags.Ctrl() then
      var g := flags.(leftCtrl := false, rightCtrl := false);
      if g.rightAlt then g.(rightAlt := false) else g.(leftAlt := false)
    else
      flags
  }

  predicate EnhancedVk(vk: nat)
  {
    vk == VkUp || vk == VkDown || vk == VkLeft || vk == VkRight || vk == VkHome ||
    vk == VkEnd || vk == VkInsert || vk == VkDelete || vk == VkPrior || vk == VkNext
  }

  // ---------------------------------------------------------------------
  // What a key event pushes.

  datatype Capability = BackTab | Cursor(row: nat, modifier: nat) | FunctionKey(index: nat)

  /** One push: push(unsigned) of a value, or push(const char*) of a
    * terminfo string. */
  datatype Input = Value(v: nat) | Sequence(cap: Capability)

  predicate CapValid(c: Capability)
  {
    match c
    case BackTab => true
    case Cursor(row, modifier) => row < |CursorTable| && modifier < 8
    case FunctionKey(index) => index < |Kfx|
  }

  function CapString(c: Capability): string
    requires CapValid(c)
  {
    match c
    case BackTab => Kcbt
    case Cursor(row, modifier) => CursorTable[row][modifier]
    case FunctionKey(index) => Kfx[index]
  }

  /** A char string as the bytes of a C `char` array. */
  function Bytes(s: string): (b: seq<byte>)
    ensures |b| == |s| && forall i :: 0 <= i < |s| ==> b[i] == (s[i] as int) % 256
  {
    seq(|s|, i requires 0 <= i < |s| => (s[i] as int) % 256)
  }

  function EscIf(alt: bool): (r: seq<Input>)
  {
    if alt then [Value(Esc)] else []
  }

  /** process_input: the pushes a key-down event makes; empty says whether
    * the buffer held nothing when the event arrived. */
  function KeyInput(ev: KeyEvent, empty: bool): (r: seq<Input>)
    ensures |r| <= 2
    ensures forall k :: 0 <= k < |r| && r[k].Sequence? ==> CapValid(r[k].cap)
  {
    if ev.vk == VkMenu || ev.vk == VkControl || ev.vk == VkShift then []
    else
      var flags := AltGrCleared(ev.keyChar, ev.flags);
      var shift := flags.shift;
      var alt := flags.Alt();
      var ctrl := flags.Ctrl();
      if ev.keyChar == '\t' as nat && empty && shift then [Sequence(BackTab)]
      else if VkF1 <= ev.vk <= VkF12 then
        EscIf(alt) + [Sequence(FunctionKey(FunctionKeyIndex(ev.vk - VkF1, shift, ctrl)))]
      else if ev.keyChar != 0 then EscIf(alt) + [Value(ev.keyChar)]
      else if flags.enhanced || EnhancedVk(ev.vk) then
        var row := ScanRow(ev.sc);
        if row.Some? then [Sequence(Cursor(row.value, ModifierIndex(shift, alt, ctrl)))] else []
      else if ctrl then
        var c := CtrlCode(ev.vk);
        if c.Some? then EscIf(alt) + [Value(c.value)] else []
      else []
  }

  /** read_console's repair of an Alt key-up carrying a character (an
    * Alt+numpad code): it becomes a key-down with no modifiers, but keeps
    * its virtual key VK_MENU. */
  function AltCodeRepaired(ev: KeyEvent): (e: KeyEvent)
    ensures !ev.keyDown && ev.vk == VkMenu && ev.keyChar != 0 ==> e.keyDown && e.flags == NoKeys && e.keyChar == ev.keyChar
    ensures ev.keyDown || ev.vk != VkMenu || ev.keyChar == 0 ==> e == ev
  {
    if !ev.keyDown && ev.vk == VkMenu && ev.keyChar != 0
    then KeyEvent(true, ev.keyChar, ev.vk, ev.sc, NoKeys) else ev
  }

  /** read_console's handling of one key record as written: the repaired
    * record goes to process_input, which discards it as a bare Alt press. */
  function EventInputAsWritten(ev: KeyEvent, empty: bool): (r: seq<Input>)
    ensures |r| <= 2
  {
    var e := AltCodeRepaired(ev);
    if e.keyDown then KeyInput(e, empty) else []
  }

  /** The Alt+numpad character never reaches the buffer. */
  lemma AltCodeDropped(ev: KeyEvent, empty: bool)
    requires !ev.keyDown && ev.vk == VkMenu && ev.keyChar != 0
    ensures EventInputAsWritten(ev, empty) == []
  {
  }

  /** read_console's handling of one key record with the repair completed:
    * the repaired record no longer names the Alt key, so its character is
    * processed like any other. Key-ups push nothing. */
  function EventInput(ev: KeyEvent, empty: bool): (r: seq<Input>)
    ensures |r| <= 2
    ensures forall k :: 0 <= k < |r| && r[k].Sequence? ==> CapValid(r[k].cap)
    ensures !ev.keyDown && (ev.vk != VkMenu || ev.keyChar == 0) ==> r == []
    ensures ev.keyDown ==> r == KeyInput(ev, empty)
  {
    var e := AltCodeRepaired(ev);
    if !e.keyDown then []
    else if e == ev then KeyInput(ev, empty)
    else KeyInput(e.(vk := 0), empty)
  }

  /** The Alt+numpad character is pushed as a plain value. */
  lemma AltCodeDelivered(ev: KeyEvent, empty: bool)
    requires !ev.keyDown && ev.vk == VkMenu && ev.keyChar != 0
    ensures EventInput(ev, empty) == [Value(ev.keyChar)]
  {
  }

  // ---------------------------------------------------------------------
  // Properties of the key mapping.

  /** Ctrl+A..Z are exactly the keys whose C0 code lies in 1..26, and the
    * code is the letter's position in the alphabet. */
  lemma CtrlLetters(vk: nat, c: nat)
    ensures CtrlCode(vk) == Some(c) && 1 <= c <= 26 <==> 'A' as nat <= vk <= 'Z' as nat && c == vk - 'A' as nat + 1
  {
  }

  /** Distinct keys give distinct Ctrl codes. */
  lemma CtrlCodeInjective(a: nat, b: nat)
    requires CtrlCode(a).Some? && CtrlCode(a) == CtrlCode(b)
    ensures a == b
  {
  }

  /** The modifier index determines shift, alt and ctrl. */
  lemma ModifierIndexDecodes(shift: bool, alt: bool, ctrl: bool)
    ensures var i := ModifierIndex(shift, alt, ctrl);
            (i % 2 == 1 <==> shift) && ((i / 2) % 2 == 1 <==> alt) && (i / 4 == 1 <==> ctrl)
  {
  }

  /** The function-key index determines the key and the shift and ctrl
    * state. */
  lemma FunctionKeyIndexDecodes(func: nat, shift: bool, ctrl: bool)
    requires func < 12
    ensures var i := FunctionKeyIndex(func, shift, ctrl);
            i % 12 == func && ((i / 12) % 2 == 1 <==> shift) && (i / 24 == 1 <==> ctrl)
  {
  }

  function Digit(d: nat): char
    requires d < 10
  {
    "0123456789"[d]
  }

  /** The xterm modifier parameter ";m", m being the modifier number, or
    * nothing when no modifier is held. */
  function XtermParameter(modifier: nat): string
    requires modifier < 8
  {
    if modifier == 0 then "" else ";" + [Digit(modifier + 1)]
  }

  /** xterm's CSI 1;m letter form (CSI letter without modifiers). */
  function XtermLetter(final: char, modifier: nat): string
    requires modifier < 8
  {
    "\U{1b}[" + (if modifier == 0 then "" else "1") + XtermParameter(modifier) + [final]
  }

  /** xterm's CSI n;m ~ form (CSI n ~ without modifiers). */
  function XtermTilde(number: char, modifier: nat): string
    requires modifier < 8
  {
    "\U{1b}[" + [number] + XtermParameter(modifier) + "~"
  }

  /** xterm's sequence for a cursor-block key: the letter form for the
    * arrows, home and end, the tilde form for insert, delete and the page
    * keys. */
  function XtermCursor(row: nat, modifier: nat): string
    requires row < 10 && modifier < 8
  {
    var finals := "ABDC__HF__";
    var numbers := "____23__56";
    if finals[row] != '_' then XtermLetter(finals[row], modifier)
    else XtermTilde(numbers[row], modifier)
  }

  lemma ArrowRowsAreXterm(row: nat, modifier: nat)
    requires row < 4 && modifier < 8
    ensures CursorTable[row][modifier] == XtermLetter("ABDC"[row], modifier)
  {
  }

  lemma HomeEndRowsAreXterm(row: nat, modifier: nat)
    requires 6 <= row < 8 && modifier < 8
    ensures CursorTable[row][modifier] == XtermLetter("HF"[row - 6], modifier)
  {
  }

  lemma InsertDeleteRowsAreXterm(row: nat, modifier: nat)
    requires 4 <= row < 6 && modifier < 8
    ensures CursorTable[row][modifier] == XtermTilde("23"[row - 4], modifier)
  {
  }

  lemma PageRowsAreXterm(row: nat, modifier: nat)
    requires 8 <= row < 10 && modifier < 8
    ensures CursorTable[row][modifier] == XtermTilde("56"[row - 8], modifier)
  {
  }

  /** Each cursor-block entry is xterm's sequence whose modifier number is
    * the modifier index plus one. */
  lemma CursorTableIsXterm(row: nat, modifier: nat)
    requires row < 10 && modifier < 8
    ensures CursorTable[row][modifier] == XtermCursor(row, modifier)
  {
    if row < 4 {
      ArrowRowsAreXterm(row, modifier);
    } else if row == 6 || row == 7 {
      HomeEndRowsAreXterm(row, modifier);
    } else if row < 6 {
      InsertDeleteRowsAreXterm(row, modifier);
    } else {
      PageRowsAreXterm(row, modifier);
    }
  }

  /** A printable character typed with AltGr (Ctrl together with right Alt)
    * is pushed on its own, without the ESC that Alt would add. */
  lemma AltGrCharacterPlain(ev: KeyEvent, empty: bool)
    requires ev.keyChar > 0x1f && ev.flags.Ctrl() && ev.flags.rightAlt && !ev.flags.leftAlt
    requires !(VkF1 <= ev.vk <= VkF12) && ev.vk != VkMenu && ev.vk != VkControl && ev.vk != VkShift
    ensures KeyInput(ev, empty) == [Value(ev.keyChar)]
  {
  }

  /** Ctrl with a letter key and no character pushes the letter's C0 code,
    * preceded by ESC when Alt is held too. */
  lemma CtrlLetterInput(ev: KeyEvent, empty: bool)
    requires 'A' as nat <= ev.vk <= 'Z' as nat && ev.keyChar == 0 && ev.flags.Ctrl() && !ev.flags.enhanced
    ensures KeyInput(ev, empty) == EscIf(ev.flags.Alt()) + [Value(ev.vk - 'A' as nat + 1)]
    ensures 1 <= ev.vk - 'A' as nat + 1 <= 26
  {
  }

  /** A cursor-block key pushes its row's sequence at the modifier index of
    * the keys held. */
  lemma CursorKeyInput(ev: KeyEvent, empty: bool, row: nat)
    requires ev.keyChar == 0 && EnhancedVk(ev.vk) && ScanRow(ev.sc) == Some(row)
    ensures KeyInput(ev, empty) ==
            [Sequence(Cursor(row, ModifierIndex(ev.flags.shift, ev.flags.Alt(), ev.flags.Ctrl())))]
  {
  }

  /** Back-tab is produced only into an empty buffer, and only with Shift. */
  lemma BackTabOnlyWhenEmpty(ev: KeyEvent, empty: bool)
    requires Sequence(BackTab) in KeyInput(ev, empty)
    ensures empty && ev.keyChar == '\t' as nat && ev.flags.shift
  {
  }

  /** Bare Shift, Ctrl and Alt presses push nothing. */
  lemma ModifierAloneSilent(ev: KeyEvent, empty: bool)
    requires ev.vk == VkShift || ev.vk == VkControl || ev.vk == VkMenu
    ensures KeyInput(ev, empty) == []
  {
  }

  // ---------------------------------------------------------------------
  // The input ring buffer.

  predicate IsPow2(n: nat)
  {
    n == 1 || (n > 1 && n % 2 == 0 && IsPow2(n / 2))
  }

  /** index & (size - 1) for a power-of-two size and an index below
    * 2 * size, which is every index the buffer computes. */
  function Wrap(index: nat, size: nat): (slot: nat)
    requires index < 2 * size
    ensures slot < size && (slot == index || slot == index - size)
  {
    if index < size then index else index - size
  }

  /** The n queued bytes of ring storage a, from slot h on, wrapping. */
  function Ring(a: seq<byte>, h: nat, n: nat): (q: seq<byte>)
    requires h < |a| && n <= |a|
    ensures |q| == n
  {
    seq(n, k requires 0 <= k < n => a[Wrap(h + k, |a|)])
  }

  /** Storing v in the slot after the last queued byte appends v. */
  lemma RingPush(a: seq<byte>, h: nat, n: nat, v: byte)
    requires h < |a| && n < |a|
    ensures Ring(a[Wrap(h + n, |a|) := v], h, n + 1) == Ring(a, h, n) + [v]
  {
    var b := a[Wrap(h + n, |a|) := v];
    forall k | 0 <= k < n + 1
      ensures Ring(b, h, n + 1)[k] == (Ring(a, h, n) + [v])[k]
    {
      if k < n {
        assert Wrap(h + k, |a|) != Wrap(h + n, |a|);
      }
    }
  }

  /** Moving the head one slot on drops the first queued byte. */
  lemma RingPop(a: seq<byte>, h: nat, n: nat)
    requires h < |a| && 0 < n <= |a|
    ensures Ring(a, h, n)[1..] == Ring(a, Wrap(h + 1, |a|), n - 1)
  {
    forall k | 0 <= k < n - 1
      ensures Ring(a, h, n)[1..][k] == Ring(a, Wrap(h + 1, |a|), n - 1)[k]
    {
      assert Ring(a, h, n)[1..][k] == a[Wrap(h + (k + 1), |a|)];
      assert Wrap(Wrap(h + 1, |a|) + k, |a|) == Wrap(h + (k + 1), |a|);
    }
  }

  /** The characters of a C string: the bytes before the first NUL. */
  function Chars(s: seq<byte>): (t: seq<byte>)
    ensures t <= s && 0 !in t && (|t| < |s| ==> s[|t|] == 0)
  {
    if |s| == 0 || s[0] == 0 then [] else [s[0]] + Chars(s[1..])
  }

  /** A prefix of s free of NUL is a prefix of its C string, and the whole
    * of it when a NUL or the end follows. */
  lemma {:induction false} CharsPrefix(s: seq<byte>, i: nat)
    requires i <= |s| && 0 !in s[..i]
    ensures i <= |Chars(s)| && Chars(s)[..i] == s[..i]
    ensures i == |s| || s[i] == 0 ==> Chars(s) == s[..i]
  {
    if i > 0 {
      assert s[0] == s[..i][0];
      assert s[1..][..i - 1] == s[..i][1..];
      CharsPrefix(s[1..], i - 1);
    }
  }

  /** push(const char*): as much of the string as fits; nothing once the
    * buffer is full. */
  function Queued(q: seq<byte>, size: nat, s: seq<byte>): (r: seq<byte>)
    ensures |q| >= size ==> r == q
    ensures |q| < size ==> |r| <= size
    ensures q <= r && r[|q|..] <= Chars(s)
    ensures |q| + |Chars(s)| <= size ==> r == q + Chars(s)
    ensures |q| + |Chars(s)| > size ==> |r| == Max(|q|, size)
  {
    if |q| >= size then q else q + Chars(s)[..Min(|Chars(s)|, size - |q|)]
  }

  /** push(unsigned), with the count kept to the bytes stored: an ASCII
    * value is one byte; a wider value is its UTF-8 encoding, stored whole
    * when it leaves a slot free and dropped otherwise. */
  function ValueQueued(q: seq<byte>, size: nat, v: nat, encoded: seq<byte>): (r: seq<byte>)
    ensures |q| >= size ==> r == q
    ensures |q| < size && v < 0x80 ==> r == q + [v]
    ensures |q| <= size ==> |r| <= size
    ensures r == q || (v < 0x80 && r == q + [v]) || (v >= 0x80 && r == q + encoded)
  {
    if |q| >= size then q
    else if v < 0x80 then q + [v]
    else if |encoded| <= size - 1 - |q| then q + encoded
    else q
  }

  /** One push of process_input applied to the queue. */
  function Fed(q: seq<byte>, size: nat, e: Input, encoded: seq<byte>): (r: seq<byte>)
    requires e.Sequence? ==> CapValid(e.cap)
    ensures |q| <= size ==> |r| <= size
    ensures q <= r
  {
    match e
    case Value(v) => ValueQueued(q, size, v, encoded)
    case Sequence(c) => Queued(q, size, Bytes(CapString(c)))
  }

  /** The pushes of one key event applied in order. */
  function FedAll(q: seq<byte>, size: nat, es: seq<Input>, encoded: seq<byte>): (r: seq<byte>)
    requires forall k :: 0 <= k < |es| && es[k].Sequence? ==> CapValid(es[k].cap)
    ensures |q| <= size ==> |r| <= size
    ensures q <= r
    decreases |es|
  {
    if |es| == 0 then q else FedAll(Fed(q, size, es[0], encoded), size, es[1..], encoded)
  }

  /** win_terminal_in's buffer: size slots (a power of two, so that index &
    * (size - 1) is index % size), the slot of the oldest byte and the
    * number of bytes queued. */
  class InputBuffer {
    const size: nat
    const buffer: array<byte>
    var head: nat
    var count: nat

    ghost predicate Valid()
      reads this
    {
      buffer.Length == size && IsPow2(size) && head < size && count <= size
    }

    /** The queued bytes, oldest first. */
    function Contents(): (q: seq<byte>)
      reads this, buffer
      requires Valid()
      ensures |q| == count
    {
      Ring(buffer[..], head, count)
    }

    constructor(size: nat)
      requires IsPow2(size)
      ensures Valid() && this.size == size && head == 0 && Contents() == [] && fresh(buffer)
    {
      this.size := size;
      buffer := new byte[size];
      head := 0;
      count := 0;
    }

    /** begin(): the buffer is emptied. */
    method Begin()
      requires Valid()
      modifies this
      ensures Valid() && head == old(head) && Contents() == []
    {
      count := 0;
    }

    /** push(const char*). */
    method PushSeq(s: seq<byte>)
      requires Valid()
      modifies this, buffer
      ensures Valid() && head == old(head)
      ensures Contents() == Queued(old(Contents()), size, s)
    {
      if count >= size {
        return;
      }
      ghost var q0 := Contents();
      var index := head + count;
      var i := 0;
      while count < size && i < |s| && s[i] != 0
        invariant Valid() && head == old(head)
        invariant count == |q0| + i && index == head + count
        invariant i <= |s| && 0 !in s[..i]
        invariant Contents() == q0 + s[..i]
        decreases size - count
      {
        RingPush(buffer[..], head, count, s[i]);
        buffer[Wrap(index, size)] := s[i];
        assert s[..i + 1] == s[..i] + [s[i]];
        count := count + 1;
        index := index + 1;
        i := i + 1;
      }
      CharsPrefix(s, i);
    }

    /** push(unsigned) with the count advanced only by the bytes stored;
      * encoded is to_utf8's output for v. */
    method PushValue(v: nat, encoded: seq<byte>)
      requires Valid()
      modifies this, buffer
      ensures Valid() && head == old(head)
      ensures Contents() == ValueQueued(old(Contents()), size, v, encoded)
    {
      if count >= size {
        return;
      }
      var index := head + count;
      if v < 0x80 {
        RingPush(buffer[..], head, count, v);
        buffer[Wrap(index, size)] := v;
        count := count + 1;
        return;
      }
      if |encoded| <= size - 1 - count {
        Append(encoded);
      }
    }

    /** Stores bytes after the queued ones; the caller has checked that
      * they fit. */
    method Append(bytes: seq<byte>)
      requires Valid() && count + |bytes| <= size
      modifies this, buffer
      ensures Valid() && head == old(head)
      ensures Contents() == old(Contents()) + bytes
    {
      ghost var q0 := Contents();
      var index := head + count;
      var i := 0;
      while i < |bytes|
        invariant Valid() && head == old(head)
        invariant count == |q0| + i && index == head + count && i <= |bytes|
        invariant Contents() == q0 + bytes[..i]
      {
        RingPush(buffer[..], head, count, bytes[i]);
        buffer[Wrap(index, size)] := bytes[i];
        assert bytes[..i + 1] == bytes[..i] + [bytes[i]];
        count := count + 1;
        index := index + 1;
        i := i + 1;
      }
      assert bytes[..i] == bytes;
    }

    /** push(unsigned) as written: the count grows by the encoding's length
      * even when the encoding did not fit and nothing was stored. */
    method PushValueAsWritten(v: nat, encoded: seq<byte>)
      requires Valid()
      modifies this, buffer
      ensures head == old(head) && (count <= size ==> Valid())
      ensures count == old(count) + (if old(count) >= size then 0 else if v < 0x80 then 1 else |encoded|)
      ensures old(count) < size && v >= 0x80 && |encoded| > size - 1 - old(count) ==> buffer[..] == old(buffer[..])
    {
      if count >= size {
        return;
      }
      var index := head + count;
      if v < 0x80 {
        buffer[Wrap(index, size)] := v;
        count := count + 1;
        return;
      }
      var n := |encoded|;
      if n <= size - 1 - count {
        var i := 0;
        while i < n
          invariant index == head + count + i && i <= n && count == old(count) && head == old(head)
        {
          buffer[Wrap(index, size)] := encoded[i];
          index := index + 1;
          i := i + 1;
        }
      }
      count := count + n;
    }

    /** pop(): the oldest byte, or 0xff with nothing changed when empty. */
    method Pop() returns (value: byte)
      requires Valid()
      modifies this
      ensures Valid()
      ensures old(count) == 0 ==> value == 0xff && count == 0 && head == old(head)
      ensures old(count) > 0 ==> value == old(Contents())[0] && Contents() == old(Contents())[1..]
      ensures old(count) > 0 ==> head == if old(head) + 1 == size then 0 else old(head) + 1
    {
      if count == 0 {
        return 0xff;
      }
      value := buffer[head];
      assert Wrap(head + 0, size) == head;
      assert value == Contents()[0];
      RingPop(buffer[..], head, count);
      count := count - 1;
      head := Wrap(head + 1, size);
    }

    /** read(): input_none (None) when nothing is queued, else pop(). */
    method Read() returns (r: Option<byte>)
      requires Valid()
      modifies this
      ensures Valid()
      ensures old(count) == 0 ==> r == None && count == 0 && head == old(head)
      ensures old(count) > 0 ==> r == Some(old(Contents())[0]) && Contents() == old(Contents())[1..]
    {
      if count == 0 {
        return None;
      }
      var v := Pop();
      r := Some(v);
    }

    /** Pops until the buffer is empty, collecting the bytes. */
    method Drain() returns (back: seq<byte>)
      requires Valid()
      modifies this
      ensures Valid() && back == old(Contents()) && count == 0
    {
      ghost var q0 := Contents();
      back := [];
      while count > 0
        invariant Valid() && |back| <= |q0|
        invariant back == q0[..|back|] && Contents() == q0[|back|..]
        decreases count
      {
        var v := Pop();
        assert q0[..|back| + 1] == back + [v];
        back := back + [v];
      }
    }

    /** One push of process_input. */
    method Feed(e: Input, encoded: seq<byte>)
      requires Valid() && (e.Sequence? ==> CapValid(e.cap))
      modifies this, buffer
      ensures Valid() && head == old(head)
      ensures Contents() == Fed(old(Contents()), size, e, encoded)
    {
      match e
      case Value(v) => PushValue(v, encoded);
      case Sequence(c) => PushSeq(Bytes(CapString(c)));
    }

    /** process_input: queues the bytes of one key-down event; encoded is
      * to_utf8's output for the event's character. */
    method ProcessInput(ev: KeyEvent, encoded: seq<byte>)
      requires Valid()
      modifies this, buffer
      ensures Valid() && head == old(head)
      ensures Contents() == FedAll(old(Contents()), size, KeyInput(ev, old(count) == 0), encoded)
    {
      ghost var q0 := Contents();
      var es := KeyInput(ev, count == 0);
      if |es| > 0 {
        Feed(es[0], encoded);
        ghost var q1 := Contents();
        assert FedAll(q0, size, es, encoded) == FedAll(q1, size, es[1..], encoded);
        if |es| > 1 {
          Feed(es[1], encoded);
          assert es[1..][1..] == [];
          assert FedAll(q1, size, es[1..], encoded) == FedAll(Contents(), size, [], encoded);
        }
      }
    }
  }

  /** Bytes pushed into an empty buffer with room for them pop out in the
    * order they were pushed. */
  method QueueRoundTrip(s: seq<byte>, size: nat) returns (back: seq<byte>)
    requires IsPow2(size) && 0 !in s && |s| <= size
    ensures back == s
  {
    var b := new InputBuffer(size);
    b.PushSeq(s);
    CharsPrefix(s, |s|);
    assert s[..|s|] == s;
    back := b.Drain();
  }

  /** A buffer of four slots holding two bytes: push(unsigned) of U+20AC,
    * whose three UTF-8 bytes do not fit, stores nothing yet counts five
    * bytes queued. */
  method WideValueOvercounts() returns (b: InputBuffer)
    ensures b.size == 4 && b.count == 5 && b.count > b.buffer.Length
  {
    b := new InputBuffer(4);
    b.PushValueAsWritten('a' as nat, []);
    b.PushValueAsWritten('a' as nat, []);
    b.PushValueAsWritten(0x20ac, [0xe2, 0x82, 0xac]);
  }

  /** The same pushes with the count kept to the bytes stored: the wide
    * character is dropped and the queue stays within its four slots. */
  method WideValueDropped() returns (b: InputBuffer)
    ensures b.Valid() && b.count <= b.size && b.Contents() == [0x61, 0x61]
  {
    b := new InputBuffer(4);
    b.PushValue('a' as nat, []);
    b.PushValue('a' as nat, []);
    b.PushValue(0x20ac, [0xe2, 0x82, 0xac]);
  }
}
